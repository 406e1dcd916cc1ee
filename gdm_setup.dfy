/**
 * The GDM steps of the unattended-access helper: back up
 * /etc/gdm3/custom.conf, patch it with ensure_line_in_section, and write it
 * back only when the text changed.
 *
 * The file system is an object holding a map from paths to file texts and a
 * log of the copies and writes made, in order. The clock is a parameter
 * (the timestamp text of the backup name).
 */
module GdmSetup {
  import opened Wrappers
  import opened TextScan
  import opened Patterns
  import opened SectionPatch

  /** GDM's custom configuration file. */
  const GdmCustomConf: string := "/etc/gdm3/custom.conf"

  /** What the file system was asked to do. */
  datatype FsEvent = Copied(source: string, target: string) | Wrote(path: string, text: string)

  /** The error raised when the file to back up does not exist. */
  datatype FsError = FileNotFound(path: string)

  /** Files as decoded text, and the log of copies and writes. */
  class FileSystem {
    var files: map<string, string>
    var log: seq<FsEvent>

    constructor(initial: map<string, string>)
      ensures files == initial && log == []
    {
      files := initial;
      log := [];
    }

    predicate Exists(path: string)
      reads this
    {
      path in files
    }

    /** Read a file's text (decoding errors are not modelled). */
    method ReadText(path: string) returns (text: string)
      requires path in files
      ensures text == files[path]
    {
      text := files[path];
    }

    /** Replace (or create) a file's text. */
    method WriteText(path: string, text: string)
      modifies this
      ensures files == old(files)[path := text]
      ensures log == old(log) + [Wrote(path, text)]
    {
      files := files[path := text];
      log := log + [Wrote(path, text)];
    }

    /** Copy a file's text to target, replacing what was there (metadata is not modelled). */
    method Copy(source: string, target: string)
      requires source in files
      modifies this
      ensures files == old(files)[target := old(files)[source]]
      ensures log == old(log) + [Copied(source, target)]
    {
      files := files[target := files[source]];
      log := log + [Copied(source, target)];
    }
  }

  /**
   * The backup name: the file name with `.bak_<timestamp>` added after its
   * suffix, in the same directory. It extends the original path, so it never
   * names the original file.
   */
  function BackupPath(path: string, ts: string): (r: string)
    ensures |r| == |path| + 5 + |ts| && r[..|path|] == path
    ensures r != path
  {
    path + ".bak_" + ts
  }

  /** backup_file(path): fail when the file is missing, otherwise copy it to its backup name. */
  method BackupFile(fs: FileSystem, path: string, ts: string) returns (r: Result<string, FsError>)
    modifies fs
    ensures path !in old(fs.files) ==>
      r == Failure(FileNotFound(path)) && fs.files == old(fs.files) && fs.log == old(fs.log)
    ensures path in old(fs.files) ==>
      r == Success(BackupPath(path, ts))
      && fs.files == old(fs.files)[BackupPath(path, ts) := old(fs.files)[path]]
      && fs.log == old(fs.log) + [Copied(path, BackupPath(path, ts))]
  {
    if !fs.Exists(path) {
      return Failure(FileNotFound(path));
    }
    var backup := BackupPath(path, ts);
    fs.Copy(path, backup);
    return Success(backup);
  }

  /**
   * The text disable_wayland_in_gdm computes: WaylandEnable=false in [daemon].
   * The result always holds `WaylandEnable=false`; a text with no [daemon]
   * header gets a new block at its end.
   */
  function WaylandDisabled(conf: string): (r: string)
    ensures exists i: nat :: StartsAt(r, i, KeyLine("WaylandEnable", "false"))
    ensures (forall p :: 0 <= p <= |conf| ==> HeaderMatch(conf, "daemon", p).None?) ==>
      r == WithFinalNewline(conf) + NewSectionBlock("daemon", "WaylandEnable", "false")
  {
    EnsureLineInSection(conf, "daemon", "WaylandEnable", "false")
  }

  /**
   * The text enable_gdm_autologin computes: AutomaticLoginEnable=true, then
   * AutomaticLogin=user, in [daemon]. The second patch runs last, so the
   * result always holds `AutomaticLogin=<user>`.
   */
  function AutologinEnabled(conf: string, user: string): (r: string)
    requires '\\' !in user
    ensures exists i: nat :: StartsAt(r, i, KeyLine("AutomaticLogin", user))
  {
    EnsureLineInSection(EnsureLineInSection(conf, "daemon", "AutomaticLoginEnable", "true"), "daemon", "AutomaticLogin", user)
  }

  /**
   * disable_wayland_in_gdm: the backup is taken first and holds the text as
   * it was; the patched text is written, once, only when it differs. The
   * result tells whether the file changed.
   */
  method DisableWaylandInGdm(fs: FileSystem, ts: string) returns (r: Result<bool, FsError>)
    modifies fs
    ensures GdmCustomConf !in old(fs.files) ==>
      r == Failure(FileNotFound(GdmCustomConf)) && fs.files == old(fs.files) && fs.log == old(fs.log)
    ensures GdmCustomConf in old(fs.files) ==>
      var conf := old(fs.files)[GdmCustomConf];
      var conf2 := WaylandDisabled(conf);
      var bak := BackupPath(GdmCustomConf, ts);
      r == Success(conf2 != conf)
      && fs.files == old(fs.files)[bak := conf][GdmCustomConf := conf2]
      && fs.log == old(fs.log) + [Copied(GdmCustomConf, bak)] + (if conf2 != conf then [Wrote(GdmCustomConf, conf2)] else [])
  {
    hide *;
    var b := BackupFile(fs, GdmCustomConf, ts);
    if b.Failure? {
      return Failure(b.error);
    }
    var conf := fs.ReadText(GdmCustomConf);
    var conf2 := WaylandDisabled(conf);
    if conf2 != conf {
      fs.WriteText(GdmCustomConf, conf2);
    }
    return Success(conf2 != conf);
  }

  /**
   * enable_gdm_autologin: the same backup-first, write-if-changed steps,
   * with both keys patched in memory and at most one write of the result.
   */
  method EnableGdmAutologin(fs: FileSystem, user: string, ts: string) returns (r: Result<bool, FsError>)
    requires '\\' !in user
    modifies fs
    ensures GdmCustomConf !in old(fs.files) ==>
      r == Failure(FileNotFound(GdmCustomConf)) && fs.files == old(fs.files) && fs.log == old(fs.log)
    ensures GdmCustomConf in old(fs.files) ==>
      var conf := old(fs.files)[GdmCustomConf];
      var conf2 := AutologinEnabled(conf, user);
      var bak := BackupPath(GdmCustomConf, ts);
      r == Success(conf2 != conf)
      && fs.files == old(fs.files)[bak := conf][GdmCustomConf := conf2]
      && fs.log == old(fs.log) + [Copied(GdmCustomConf, bak)] + (if conf2 != conf then [Wrote(GdmCustomConf, conf2)] else [])
  {
    hide EnsureLineInSection;
    var b := BackupFile(fs, GdmCustomConf, ts);
    if b.Failure? {
      return Failure(b.error);
    }
    var conf := fs.ReadText(GdmCustomConf);
    var conf2 := conf;
    conf2 := EnsureLineInSection(conf2, "daemon", "AutomaticLoginEnable", "true");
    conf2 := EnsureLineInSection(conf2, "daemon", "AutomaticLogin", user);
    if conf2 != conf {
      fs.WriteText(GdmCustomConf, conf2);
    }
    return Success(conf2 != conf);
  }
}
