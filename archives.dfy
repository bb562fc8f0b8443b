/**
 * Archive files in the migration directory: the volume backups written by
 * `funcVolumeBackup`, the volume name recovered from them by `funcVolSendRestore`
 * at import time, and the image archives written by `funcImageSync`.
 */
module Archives {
  import opened Text

  /** The date stamp `yyyymmdd` of `funcDateString`. */
  predicate IsDate(d: string) {
    |d| == 8 && forall i :: 0 <= i < 8 ==> IsDigit(d[i])
  }

  /** `os.path.join(dir, file)`: an absolute `file` wins; otherwise one `/` separates them. */
  function JoinPath(dir: string, file: string): string {
    if file != [] && file[0] == '/' then file
    else if dir == [] || dir[|dir| - 1] == '/' then dir + file
    else dir + "/" + file
  }

  /** The directory part that ends up before the separating `/`. */
  function DirStem(dir: string): string {
    if dir != [] && dir[|dir| - 1] == '/' then dir[..|dir| - 1] else dir
  }

  /** Joined to a non-empty directory, a relative file name follows a `/`. */
  lemma JoinPathShape(dir: string, file: string)
    requires dir != [] && (file == [] || file[0] != '/')
    ensures JoinPath(dir, file) == DirStem(dir) + "/" + file
  {
    if dir[|dir| - 1] == '/' {
      assert dir == dir[..|dir| - 1] + "/";
    }
  }

  // ---------------------------------------------------------------------------
  // Volume archives
  // ---------------------------------------------------------------------------

  /** The backup of volume `name`: `dir/prefix_name_date.tar`. */
  function VolumeArchive(dir: string, prefix: string, name: string, date: string): string {
    JoinPath(dir, prefix + "_" + name + "_" + date + ".tar")
  }

  /** The backups of a list of volumes, in order. */
  function VolumeArchives(dir: string, prefix: string, date: string, names: seq<string>): (files: seq<string>)
    ensures |files| == |names|
    ensures forall i :: 0 <= i < |names| ==> files[i] == VolumeArchive(dir, prefix, names[i], date)
  {
    if names == [] then []
    else VolumeArchives(dir, prefix, date, names[..|names| - 1])
         + [VolumeArchive(dir, prefix, names[|names| - 1], date)]
  }

  /**
   * The backup loop: every volume is exported to its archive in turn; the first
   * export that fails ends the migration (None).
   */
  method BackupVolumes(dir: string, prefix: string, date: string, names: seq<string>,
                       exportOk: string -> bool) returns (files: Option<seq<string>>)
    ensures files.Some? <==> forall i :: 0 <= i < |names| ==> exportOk(names[i])
    ensures files.Some? ==> files.value == VolumeArchives(dir, prefix, date, names)
  {
    var done: seq<string> := [];
    var i := 0;
    while i < |names|
      invariant 0 <= i <= |names|
      invariant forall j :: 0 <= j < i ==> exportOk(names[j])
      invariant done == VolumeArchives(dir, prefix, date, names[..i])
    {
      if !exportOk(names[i]) {
        return None;
      }
      assert names[..i + 1][..i] == names[..i];
      done := done + [VolumeArchive(dir, prefix, names[i], date)];
      i := i + 1;
    }
    assert names[..i] == names;
    return Some(done);
  }

  /**
   * `re.sub('.*\/' + prefix + '\_', '', file)` then `re.sub('_[0-9].*', '', ...)`:
   * the volume name `funcVolSendRestore` imports an archive into.
   */
  function RecoverVolumeName(path: string, prefix: string): string {
    CutLines(DropThroughLast(path, "/" + prefix + "_"), AtUnderscoreDigit)
  }

  /** The name has no `_` immediately followed by a digit. */
  predicate NoUnderscoreDigit(name: string) {
    forall i :: 0 <= i < |name| - 1 ==> !(name[i] == '_' && IsDigit(name[i + 1]))
  }

  /**
   * The prefix is spliced into the first pattern unescaped, so it stands for
   * itself only when it holds no regular-expression metacharacter.
   */
  predicate RegexLiteral(prefix: string) {
    forall c :: c in prefix ==> c !in "\\^$|?*+()[]{}."
  }

  /** What the archive path needs for the recovery to see its own parts. */
  predicate PlainParts(dir: string, prefix: string, name: string, date: string) {
    && dir != [] && '\n' !in dir
    && '/' !in prefix && '\n' !in prefix && RegexLiteral(prefix)
    && '/' !in name && '\n' !in name
    && IsDate(date)
  }

  /** A volume archive is the directory stem, `/prefix_`, then `name_date.tar`, on one line. */
  lemma ArchivePathShape(dir: string, prefix: string, name: string, date: string)
    requires PlainParts(dir, prefix, name, date)
    ensures var key := "/" + prefix + "_";
            var rest := name + "_" + date + ".tar";
            VolumeArchive(dir, prefix, name, date) == DirStem(dir) + key + rest
            && '\n' !in DirStem(dir) && '\n' !in key && '\n' !in rest
  {
    var file := prefix + "_" + name + "_" + date + ".tar";
    var rest := name + "_" + date + ".tar";
    assert file == [] || file[0] != '/' by {
      if prefix != [] { assert file[0] == prefix[0]; } else { assert file[0] == '_'; }
    }
    JoinPathShape(dir, file);
    ConcatAssoc5(prefix, "_", name, "_" + date, ".tar");
    assert file == prefix + "_" + rest;
    KeySplice(DirStem(dir), prefix, rest);
    assert '\n' !in date && '\n' !in ".tar";
    assert '\n' !in DirStem(dir) by {
      if DirStem(dir) != dir { assert DirStem(dir) == dir[..|dir| - 1]; }
    }
  }

  lemma KeySplice(stem: string, prefix: string, rest: string)
    ensures stem + "/" + (prefix + "_" + rest) == stem + ("/" + prefix + "_") + rest
  {
  }

  /** Dropping through the last `/prefix_` of a volume archive leaves `name_date.tar`. */
  lemma ArchiveTail(dir: string, prefix: string, name: string, date: string)
    requires PlainParts(dir, prefix, name, date)
    ensures DropThroughLast(VolumeArchive(dir, prefix, name, date), "/" + prefix + "_")
            == name + "_" + date + ".tar"
  {
    var key := "/" + prefix + "_";
    var rest := name + "_" + date + ".tar";
    ArchivePathShape(dir, prefix, name, date);
    assert '/' !in date && '/' !in ".tar";
    assert (key + rest)[1..] == prefix + "_" + rest;
    OnlyAtStart(key + rest, key);
    assert '\n' !in DirStem(dir) + key + rest;
    DropThroughKey(DirStem(dir), key, rest);
  }

  /**
   * The name of a volume backed up as `dir/prefix_name_yyyymmdd.tar` is recovered
   * exactly when it has no `_` followed by a digit.
   */
  lemma VolumeNameRoundTrip(dir: string, prefix: string, name: string, date: string)
    requires PlainParts(dir, prefix, name, date)
    requires NoUnderscoreDigit(name)
    ensures RecoverVolumeName(VolumeArchive(dir, prefix, name, date), prefix) == name
  {
    ArchiveTail(dir, prefix, name, date);
    var b := "_" + date + ".tar";
    assert name + "_" + date + ".tar" == name + b;
    assert b[0] == '_' && b[1] == date[0];
    assert '\n' !in b by {
      assert '\n' !in date && '\n' !in ".tar";
    }
    CutBeforeUnderscoreDigit(name, b);
  }

  /** A name without `_<digit>`, followed by a non-digit, holds no cut point. */
  lemma NoCutInName(name: string, b: string)
    requires NoUnderscoreDigit(name) && b != [] && !IsDigit(b[0])
    ensures forall i :: 0 <= i < |name| ==> !CutsHere((name + b)[i..], AtUnderscoreDigit)
  {
    forall i | 0 <= i < |name| ensures !CutsHere((name + b)[i..], AtUnderscoreDigit) {
      if i + 1 < |name| {
        assert (name + b)[i..][1] == name[i + 1];
      } else {
        assert (name + b)[i..][1] == b[0];
      }
      assert (name + b)[i..][0] == name[i];
    }
  }

  /** `re.sub('_[0-9].*', '', ...)` on a line whose first `_<digit>` starts right after `a`. */
  lemma CutBeforeUnderscoreDigit(a: string, rest: string)
    requires NoUnderscoreDigit(a) && '\n' !in a && '\n' !in rest
    requires |rest| >= 2 && rest[0] == '_' && IsDigit(rest[1])
    ensures CutLines(a + rest, AtUnderscoreDigit) == a
  {
    NoCutInName(a, rest);
    assert CutsHere(rest, AtUnderscoreDigit);
    assert '\n' !in a + rest;
    CutLinesKeeps(a, rest, AtUnderscoreDigit);
  }

  /** A name holding `_<digit>` is recovered only up to the first such pair. */
  lemma VolumeNameCut(dir: string, prefix: string, a: string, rest: string, date: string)
    requires PlainParts(dir, prefix, a + rest, date)
    requires NoUnderscoreDigit(a) && |rest| >= 2 && rest[0] == '_' && IsDigit(rest[1])
    ensures RecoverVolumeName(VolumeArchive(dir, prefix, a + rest, date), prefix) == a
  {
    var name := a + rest;
    ArchiveTail(dir, prefix, name, date);
    var sfx := "_" + date + ".tar";
    assert name + "_" + date + ".tar" == name + sfx;
    ConcatAssoc(a, rest, sfx);
    assert '\n' !in sfx by {
      assert '\n' !in date && '\n' !in ".tar";
    }
    assert '\n' !in a && '\n' !in rest by {
      assert a == name[..|a|] && rest == name[|a|..];
    }
    CutBeforeUnderscoreDigit(a, rest + sfx);
  }

  /** The volumes `data` and `data_1` are both imported into `data`. */
  lemma VolumeNamesCollide(dir: string, prefix: string, date: string)
    requires PlainParts(dir, prefix, "data_1", date)
    ensures RecoverVolumeName(VolumeArchive(dir, prefix, "data_1", date), prefix) == "data"
    ensures RecoverVolumeName(VolumeArchive(dir, prefix, "data", date), prefix) == "data"
  {
    assert "data_1" == "data" + "_1";
    VolumeNameCut(dir, prefix, "data", "_1", date);
    VolumeNameRoundTrip(dir, prefix, "data", date);
  }

  /** The archive ends in `_` and the eight digits of a date, then `.tar`. */
  predicate HasDateSuffix(r: string) {
    |r| >= 13 && r[|r| - 13] == '_' && IsDate(r[|r| - 12..|r| - 4]) && r[|r| - 4..] == ".tar"
  }

  /** The recovery that was evidently meant: remove exactly the `_yyyymmdd.tar` the backup added. */
  function RecoverVolumeNameExact(path: string, prefix: string): string {
    var rest := DropThroughLast(path, "/" + prefix + "_");
    if HasDateSuffix(rest) then rest[..|rest| - 13] else rest
  }

  /** The corrected recovery gives back every volume name. */
  lemma VolumeNameRoundTripExact(dir: string, prefix: string, name: string, date: string)
    requires PlainParts(dir, prefix, name, date)
    ensures RecoverVolumeNameExact(VolumeArchive(dir, prefix, name, date), prefix) == name
  {
    ArchiveTail(dir, prefix, name, date);
    var rest := name + "_" + date + ".tar";
    assert rest[|rest| - 12..|rest| - 4] == date;
    assert rest[|rest| - 4..] == ".tar";
    assert rest[|rest| - 13] == '_';
    assert rest[..|rest| - 13] == name;
  }

  /** The volume names the import loop uses, one per archive. */
  function ImportNames(files: seq<string>, prefix: string): (names: seq<string>)
    ensures |names| == |files|
    ensures forall i :: 0 <= i < |files| ==> names[i] == RecoverVolumeName(files[i], prefix)
  {
    if files == [] then []
    else ImportNames(files[..|files| - 1], prefix) + [RecoverVolumeName(files[|files| - 1], prefix)]
  }

  /** `podman volume import NAME FILE` for one archive. */
  function ImportCommand(file: string, prefix: string): string {
    "podman volume import " + RecoverVolumeName(file, prefix) + " " + file
  }

  /** The import command of a backup archive names the volume the archive was made from. */
  lemma ImportCommandRoundTrip(dir: string, prefix: string, name: string, date: string)
    requires PlainParts(dir, prefix, name, date) && NoUnderscoreDigit(name)
    ensures var file := VolumeArchive(dir, prefix, name, date);
            ImportCommand(file, prefix) == "podman volume import " + name + " " + file
  {
    VolumeNameRoundTrip(dir, prefix, name, date);
  }

  /** Backing up and importing restores each volume under its own name when no name holds `_<digit>`. */
  lemma BackupImportRoundTrip(dir: string, prefix: string, date: string, names: seq<string>)
    requires forall i :: 0 <= i < |names| ==> PlainParts(dir, prefix, names[i], date)
    requires forall i :: 0 <= i < |names| ==> NoUnderscoreDigit(names[i])
    ensures ImportNames(VolumeArchives(dir, prefix, date, names), prefix) == names
  {
    var files := VolumeArchives(dir, prefix, date, names);
    forall i | 0 <= i < |names|
      ensures ImportNames(files, prefix)[i] == names[i]
    {
      VolumeNameRoundTrip(dir, prefix, names[i], date);
    }
  }

  // ---------------------------------------------------------------------------
  // Image archives
  // ---------------------------------------------------------------------------

  /** `.replace(".", "_").replace("/", "_").replace(":", "_")` on the image reference. */
  function SanitiseImage(image: string): string {
    ReplaceAll(ReplaceAll(ReplaceAll(image, ".", "_"), "/", "_"), ":", "_")
  }

  /**
   * The sanitised reference has the length of the original, holds `_` where the
   * original held `.`, `/` or `:`, and the original character everywhere else.
   */
  lemma SanitiseShape(image: string)
    ensures |SanitiseImage(image)| == |image|
    ensures forall i :: 0 <= i < |image| ==>
              SanitiseImage(image)[i] == if image[i] in {'.', '/', ':'} then '_' else image[i]
    ensures '.' !in SanitiseImage(image) && '/' !in SanitiseImage(image) && ':' !in SanitiseImage(image)
  {
    var a := ReplaceAll(image, ".", "_");
    var b := ReplaceAll(a, "/", "_");
    ReplaceCharPointwise(image, '.', '_');
    ReplaceCharPointwise(a, '/', '_');
    ReplaceCharPointwise(b, ':', '_');
    var r := SanitiseImage(image);
    forall c | c in {'.', '/', ':'} ensures c !in r {
      forall i | 0 <= i < |r| ensures r[i] != c {
      }
    }
  }

  /** The archive an image is saved to: `dir/prefix_img_<sanitised>_date.tar`. */
  function ImageArchive(dir: string, prefix: string, image: string, date: string): string {
    JoinPath(dir, prefix + "_img_" + SanitiseImage(image) + "_" + date + ".tar")
  }
}
