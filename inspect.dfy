/**
 * Replies of the destination host and of local `podman inspect` runs, and what the
 * script reads out of them: whether a container already exists remotely
 * (`funcContainerExistRemote`), the volume names of a container or pod
 * (`funcGetCntVolName`, `funcGetPodVolName`) and the members of a pod
 * (`funcGetPodContainers`).
 */
module Inspect {
  import opened Text

  // ---------------------------------------------------------------------------
  // Replies of remote commands
  // ---------------------------------------------------------------------------

  /** A remote reply: a status and a message (`vRemoteStatus[0]`, `vRemoteStatus[1]`). */
  datatype Reply = Reply(status: int, text: string)

  /** The prefix of every error message. */
  const ErrorPrefix: string := "Error message:\n"

  /** funcSftpCmdRS: a failing stderr channel gives its code and text; otherwise the exit status and `OK`. */
  function CommandReply(exitStatus: int, errStatus: int, stderr: string): (r: Reply)
    ensures errStatus == 0 <==> r.text == "OK"
    ensures errStatus != 0 ==> r.status == errStatus
    ensures errStatus == 0 ==> r.status == exitStatus
  {
    if errStatus != 0 then Reply(errStatus, ErrorPrefix + Strip(stderr)) else Reply(exitStatus, "OK")
  }

  /** One output line without the list brackets of a printed Python list and without newlines. */
  function CleanReplyLine(line: string): string {
    RemoveAll(RemoveAll(RemoveAll(line, "['"), "']\n"), "\n")
  }

  /** funcSftpCmdRL: the first output line, cleaned, or `None` when there is no output. */
  function LinesReply(lines: seq<string>, exitStatus: int, errStatus: int, stderr: string): (r: Reply)
  {
    if errStatus != 0 then Reply(errStatus, ErrorPrefix + Strip(stderr))
    else if lines == [] then Reply(exitStatus, "None")
    else Reply(exitStatus, CleanReplyLine(lines[0]))
  }

  /** A successful reply holds no newline; a failed one starts with the error prefix. */
  lemma LinesReplyShape(lines: seq<string>, exitStatus: int, errStatus: int, stderr: string)
    ensures var r := LinesReply(lines, exitStatus, errStatus, stderr);
            (errStatus == 0 ==> '\n' !in r.text && r.status == exitStatus)
            && (errStatus != 0 ==> r.status == errStatus && r.text[..|ErrorPrefix|] == ErrorPrefix)
  {
    if errStatus == 0 && lines != [] {
      var a := RemoveAll(RemoveAll(lines[0], "['"), "']\n");
      ReplaceCharRemoves(a, '\n', "");
    }
  }

  /** A plain output line is read back as it was printed. */
  lemma CleanPlainLine(x: string)
    requires '\n' !in x && '[' !in x && ']' !in x
    ensures CleanReplyLine(x + "\n") == x
  {
    assert '[' !in x + "\n" && ']' !in x + "\n";
    ReplaceMissing(x + "\n", "['", "", '[');
    ReplaceMissing(x + "\n", "']\n", "", ']');
    ReplaceCharConcat(x, "\n", '\n', "");
    ReplaceMissing(x, "\n", "", '\n');
    assert "\n"[..1] == "\n";
  }

  // ---------------------------------------------------------------------------
  // funcContainerExistRemote
  // ---------------------------------------------------------------------------

  /** `0`: not on the destination; `1`: already there (loop mode); or the run stops. */
  datatype Existence = Absent | Present | StopExists

  /**
   * Only the first line of the remote listing is compared with the name; outside
   * loop mode an existing container ends the run.
   */
  function ExistRemote(name: string, loopDisabled: bool, reply: Reply): (e: Existence)
  {
    if Strip(reply.text) == name then (if loopDisabled then StopExists else Present) else Absent
  }

  /** A name without brackets, newlines, or white space at its ends. */
  predicate PlainName(name: string) {
    name != [] && !IsSpace(name[0]) && !IsSpace(name[|name| - 1])
    && '\n' !in name && '[' !in name && ']' !in name
  }

  /** A container listed first on the destination is found. */
  lemma ExistRemoteListedFirst(name: string, rest: seq<string>, loopDisabled: bool, exitStatus: int)
    requires PlainName(name)
    ensures ExistRemote(name, loopDisabled, LinesReply([name + "\n"] + rest, exitStatus, 0, ""))
            == if loopDisabled then StopExists else Present
  {
    CleanPlainLine(name);
    StripUnchanged(name);
  }

  /** A listing that starts with another plain name reports the container absent, whatever follows. */
  lemma ExistRemoteOnlyFirstLine(name: string, other: string, rest: seq<string>, loopDisabled: bool, exitStatus: int)
    requires PlainName(other) && other != name
    ensures ExistRemote(name, loopDisabled, LinesReply([other + "\n"] + rest, exitStatus, 0, "")) == Absent
  {
    CleanPlainLine(other);
    StripUnchanged(other);
  }

  /** An empty listing reports the container absent (unless it is literally named `None`). */
  lemma ExistRemoteEmptyListing(name: string, loopDisabled: bool, exitStatus: int)
    requires name != "None"
    ensures ExistRemote(name, loopDisabled, LinesReply([], exitStatus, 0, "")) == Absent
  {
    StripUnchanged("None");
  }

  // ---------------------------------------------------------------------------
  // Volume names
  // ---------------------------------------------------------------------------

  /** The separator between the entries of a printed Go slice of structs. */
  const Sep: string := "} {"

  /** `'--volume' in cmd or '-v' in cmd`. */
  predicate HasVolumeOption(cmd: string) {
    Contains(cmd, "--volume") || Contains(cmd, "-v")
  }

  /** Since `--volume` holds `-v`, the test is the same as asking for `-v` alone. */
  lemma VolumeOptionIsDashV(cmd: string)
    ensures HasVolumeOption(cmd) <==> Contains(cmd, "-v")
  {
    if Contains(cmd, "--volume") {
      var k := IndexOf(cmd, "--volume").value;
      assert cmd[k + 1..k + 3] == cmd[k..k + 8][1..3];
      ContainsAt(cmd, "-v", k + 1);
    }
  }

  /** `re.sub('.*volume ', '', row)` then `re.sub(' .*', '', ...)`: the volume name of one mount. */
  function VolumeName(row: string): string {
    ValueAfter(row, "volume ")
  }

  /** The volume names of the mount rows, in order. */
  function VolumeNamesIn(rows: seq<string>): (names: seq<string>)
    ensures |names| == |rows|
    ensures forall i :: 0 <= i < |rows| ==> names[i] == VolumeName(rows[i])
  {
    if rows == [] then [] else VolumeNamesIn(rows[..|rows| - 1]) + [VolumeName(rows[|rows| - 1])]
  }

  /** No volume option: the string `None`; no inspect output: the run stops; else the names. */
  datatype VolumeList = NoVolumes | ReadFailed | Volumes(names: seq<string>)

  function VolumeListing(cmd: string, mountLines: seq<string>): VolumeList {
    if !HasVolumeOption(cmd) then NoVolumes
    else if mountLines == [] then ReadFailed
    else Volumes(VolumeNamesIn(Split(mountLines[0], Sep)))
  }

  /** The loop of `funcGetCntVolName` / `funcGetPodVolName` over the mount rows. */
  method GetVolumeNames(cmd: string, mountLines: seq<string>) returns (r: VolumeList)
    ensures r == VolumeListing(cmd, mountLines)
  {
    if !HasVolumeOption(cmd) {
      return NoVolumes;
    }
    if mountLines == [] {
      return ReadFailed;
    }
    var rows := Split(mountLines[0], Sep);
    var names: seq<string> := [];
    var i := 0;
    while i < |rows|
      invariant 0 <= i <= |rows|
      invariant names == VolumeNamesIn(rows[..i])
    {
      assert rows[..i + 1][..i] == rows[..i];
      names := names + [VolumeName(rows[i])];
      i := i + 1;
    }
    assert rows[..i] == rows;
    return Volumes(names);
  }

  /** Rows without the separator are split back apart after joining. */
  lemma {:induction false} SplitJoinRows(rows: seq<string>)
    requires |rows| >= 1
    requires forall i :: 0 <= i < |rows| ==> !Contains(rows[i], Sep)
    ensures Split(Join(rows, Sep), Sep) == rows
    decreases |rows|
  {
    if |rows| == 1 {
      NotContains(rows[0], Sep);
    } else {
      var r := rows[0];
      var rest := Join(rows[1..], Sep);
      var s := r + Sep + rest;
      assert Join(rows, Sep) == s;
      NotContains(r, Sep);
      assert s[|r|..|r| + 3] == Sep;
      forall k: nat | k < |r| ensures !OccursAt(s, Sep, k) {
        if k + 3 <= |r| {
          assert s[k..k + 3] == r[k..k + 3];
          assert !OccursAt(r, Sep, k);
        } else if k + 2 == |r| {
          assert s[k + 2] == '}';
          assert k + 3 <= |s| ==> s[k..k + 3][2] == s[k + 2];
        } else {
          assert s[k + 1] == '}';
          assert k + 3 <= |s| ==> s[k..k + 3][1] == s[k + 1];
        }
      }
      IndexOfIs(s, Sep, |r|);
      SplitAt(s, Sep, |r|);
      assert s[..|r|] == r;
      assert s[|r| + 3..] == rest;
      SplitJoinRows(rows[1..]);
      assert rows == [r] + rows[1..];
    }
  }

  /** A mount row `<pre>volume <name><post>` on one line, naming its volume once. */
  predicate MountRow(row: string, pre: string, name: string, post: string) {
    && row == pre + "volume " + name + post
    && '\n' !in row
    && ' ' !in name && (post == [] || post[0] == ' ')
    && !Contains(name + post, "volume ")
    && !Contains(row, Sep)
  }

  lemma MountRowName(row: string, pre: string, name: string, post: string)
    requires MountRow(row, pre, name, post)
    ensures VolumeName(row) == name
  {
    ValueAfterWord(pre, "volume ", name, post);
  }

  /**
   * Mount rows `<pre>volume <name><post>`, joined as podman prints them, give back
   * exactly their volume names.
   */
  lemma VolumeNamesRoundTrip(rows: seq<string>, pres: seq<string>, names: seq<string>, posts: seq<string>)
    requires |rows| == |pres| == |names| == |posts| >= 1
    requires forall i :: 0 <= i < |rows| ==> MountRow(rows[i], pres[i], names[i], posts[i])
    ensures VolumeNamesIn(Split(Join(rows, Sep), Sep)) == names
  {
    forall i | 0 <= i < |rows| ensures !Contains(rows[i], Sep) {
      assert MountRow(rows[i], pres[i], names[i], posts[i]);
    }
    SplitJoinRows(rows);
    VolumeNamesOfRows(rows, pres, names, posts);
  }

  lemma VolumeNamesOfRows(rows: seq<string>, pres: seq<string>, names: seq<string>, posts: seq<string>)
    requires |rows| == |pres| == |names| == |posts|
    requires forall i :: 0 <= i < |rows| ==> MountRow(rows[i], pres[i], names[i], posts[i])
    ensures VolumeNamesIn(rows) == names
  {
    var found := VolumeNamesIn(rows);
    forall i | 0 <= i < |names| ensures found[i] == names[i] {
      MountRowName(rows[i], pres[i], names[i], posts[i]);
    }
    assert |found| == |names|;
  }

  // ---------------------------------------------------------------------------
  // Pod members
  // ---------------------------------------------------------------------------

  /** `^\S+ ` dropped, cut at the first space, newlines removed: the name in one member row. */
  function PodMember(row: string): string {
    RemoveAll(CutLines(DropFirstToken(row), AtSpace), "\n")
  }

  /** The member names of the rows that are not the infra container, in order. */
  function PodMembersIn(rows: seq<string>): seq<string> {
    if rows == [] then []
    else
      var m := PodMember(rows[|rows| - 1]);
      PodMembersIn(rows[..|rows| - 1]) + (if Contains(m, "infra") then [] else [m])
  }

  /** The loop of `funcGetPodContainers`; no output line at all stops the run (None). */
  method GetPodMembers(lines: seq<string>) returns (r: Option<seq<string>>)
    ensures lines == [] ==> r == None
    ensures lines != [] ==> r == Some(PodMembersIn(Split(lines[0], Sep)))
  {
    if lines == [] {
      return None;
    }
    var rows := Split(lines[0], Sep);
    var names: seq<string> := [];
    var i := 0;
    while i < |rows|
      invariant 0 <= i <= |rows|
      invariant names == PodMembersIn(rows[..i])
    {
      assert rows[..i + 1][..i] == rows[..i];
      var m := PodMember(rows[i]);
      if !Contains(m, "infra") {
        names := names + [m];
      }
      i := i + 1;
    }
    assert rows[..i] == rows;
    return Some(names);
  }

  /** A member name holds no space and no newline. */
  lemma PodMemberShape(row: string)
    ensures ' ' !in PodMember(row) && '\n' !in PodMember(row)
  {
    var c := CutLines(DropFirstToken(row), AtSpace);
    CutLinesDropsChar(DropFirstToken(row), AtSpace, ' ');
    ReplaceKeepsOut(c, "\n", "", ' ');
    ReplaceCharRemoves(c, '\n', "");
  }

  /** The names kept hold no space, no newline and no `infra`. */
  lemma {:induction false} PodMembersShape(rows: seq<string>)
    ensures forall n :: n in PodMembersIn(rows) ==> ' ' !in n && '\n' !in n && !Contains(n, "infra")
    decreases |rows|
  {
    if rows != [] {
      PodMembersShape(rows[..|rows| - 1]);
      PodMemberShape(rows[|rows| - 1]);
    }
  }

  lemma PodMembersGrow(rows: seq<string>, x: string)
    requires rows != [] && x in PodMembersIn(rows[..|rows| - 1])
    ensures x in PodMembersIn(rows)
  {
  }

  lemma PodMembersLast(rows: seq<string>)
    requires rows != [] && !Contains(PodMember(rows[|rows| - 1]), "infra")
    ensures PodMember(rows[|rows| - 1]) in PodMembersIn(rows)
  {
  }

  /** A row whose name is not infra contributes its name. */
  lemma {:induction false} PodMemberKept(rows: seq<string>, i: nat)
    requires i < |rows| && !Contains(PodMember(rows[i]), "infra")
    ensures PodMember(rows[i]) in PodMembersIn(rows)
    decreases |rows|
  {
    if i == |rows| - 1 {
      PodMembersLast(rows);
    } else {
      var init := rows[..|rows| - 1];
      assert rows[i] == init[i];
      PodMemberKept(init, i);
      PodMembersGrow(rows, PodMember(rows[i]));
    }
  }

  /** Every row whose name is not infra contributes its name. */
  lemma PodMembersComplete(rows: seq<string>)
    ensures forall i :: 0 <= i < |rows| && !Contains(PodMember(rows[i]), "infra") ==>
              PodMember(rows[i]) in PodMembersIn(rows)
  {
    forall i | 0 <= i < |rows| && !Contains(PodMember(rows[i]), "infra")
      ensures PodMember(rows[i]) in PodMembersIn(rows)
    {
      PodMemberKept(rows, i);
    }
  }

  /** Every name kept is the name of some row. */
  lemma {:induction false} PodMembersSound(rows: seq<string>)
    ensures forall n :: n in PodMembersIn(rows) ==> exists i :: 0 <= i < |rows| && PodMember(rows[i]) == n
    decreases |rows|
  {
    if rows != [] {
      var init := rows[..|rows| - 1];
      var last := PodMember(rows[|rows| - 1]);
      PodMembersSound(init);
      assert PodMembersIn(rows) == PodMembersIn(init) + (if Contains(last, "infra") then [] else [last]);
      forall n | n in PodMembersIn(rows) ensures exists i :: 0 <= i < |rows| && PodMember(rows[i]) == n {
        if n in PodMembersIn(init) {
          var i :| 0 <= i < |init| && PodMember(init[i]) == n;
          assert rows[i] == init[i];
        } else {
          assert PodMember(rows[|rows| - 1]) == n;
        }
      }
    }
  }

  /** A member row `<id> <name><post>`, possibly ending the line, yields `name`. */
  lemma PodMemberOf(id: string, name: string, post: string, nl: string)
    requires id != [] && forall c :: c in id ==> !IsSpace(c)
    requires name != [] && ' ' !in name && '\n' !in name + post
    requires post == [] || post[0] == ' '
    requires nl == "" || nl == "\n"
    ensures PodMember(id + " " + name + post + nl) == name
  {
    var row := id + " " + name + post + nl;
    var k := TokenLength(row);
    assert row[|id|] == ' ';
    assert forall i :: 0 <= i < |id| ==> row[i] == id[i];
    assert k == |id|;
    assert row[|id| + 1..] == name + post + nl;
    if nl == "" {
      assert name + post + nl == name + post;
      CutWord(name, post);
    } else {
      forall i | 0 <= i < |name| ensures !CutsHere((name + post + "\n")[i..], AtSpace) {
        assert (name + post + "\n")[i..][0] == name[i];
      }
      if post != [] {
        assert (post + "\n")[0] == ' ';
      }
      CutLinesKeepsLine(name, post, AtSpace);
      ReplaceCharConcat(name, "\n", '\n', "");
      assert "\n"[..1] == "\n";
    }
    ReplaceMissing(name, "\n", "", '\n');
  }
}
