/**
 * The ext2/3/4 commands of the daemon that build a command line or tidy a
 * tool's output: get_e2label, the choice between mke4fs and mke2fs, the
 * external journal options of mke2fs_J/JL/JU, and mke2journal with or
 * without a label or a UUID.
 */
module Ext2Commands {
  import opened Outcome
  import opened CText

  // ----- get_e2label -----

  /** The label as e2label printed it, with one trailing newline removed if there is one. */
  function Label(s: string): (stripped: string)
    ensures stripped <= s && |s| - 1 <= |stripped|
    ensures |stripped| < |s| <==> |s| > 0 && s[|s| - 1] == '\n'
  {
    if |s| > 0 && s[|s| - 1] == '\n' then s[..|s| - 1] else s
  }

  /** The result of do_get_e2label for one run of e2label. */
  function E2Label(run: ToolRun): (r: Reply<string>)
    ensures run.Failed? ==> r == Err(ToolFailed(run.stderr))
    ensures r.Ok? <==> run.Succeeded?
    ensures r.Ok? ==> r.value <= run.stdout && '\0' !in r.value
    ensures run.Succeeded? ==>
              var out := CStr(run.stdout);
              if out != [] && out[|out| - 1] == '\n' then r.value + "\n" == out else r.value == out
  {
    match run
    case Failed(err) => Err(ToolFailed(err))
    case Succeeded(out) =>
      var text := CStr(out);
      LabelOfOutput(text, out);
      Ok(Label(text))
  }

  /** The label of the C string `text` in `out` lies within `out` and is `text` less one final newline. */
  lemma LabelOfOutput(text: string, out: string)
    requires text <= out && '\0' !in text
    ensures Label(text) <= out && '\0' !in Label(text)
    ensures if text != [] && text[|text| - 1] == '\n' then Label(text) + "\n" == text else Label(text) == text
  {
    var l := Label(text);
    assert l == text[..|l|];
    assert out[..|l|] == text[..|l|];
    if text != [] && text[|text| - 1] == '\n' {
      assert l + "\n" == text[..|text| - 1] + [text[|text| - 1]];
    }
  }

  /** Exactly one newline is removed: a label printed with a newline after it is read back unchanged. */
  lemma LabelRoundTrip(text: string)
    ensures Label(text + "\n") == text
    ensures text == [] || text[|text| - 1] != '\n' ==> Label(text) == text
  {
    assert (text + "\n")[..|text|] == text;
  }

  /** do_get_e2label: the label of one run of e2label. */
  method GetE2label(run: ToolRun) returns (r: Reply<string>)
    ensures r == E2Label(run)
  {
    if run.Failed? {
      return Err(ToolFailed(run.stderr));
    }
    var s := CStr(run.stdout);
    var buf := OutputBuffer(s);
    var stripped := ChopNewline(buf, s);
    r := Ok(stripped);
  }

  /**
   * The daemon measures the NUL-terminated output in `buf` with strlen and,
   * when its last character is a newline, overwrites it with a NUL; the label
   * is the C string left in the buffer.
   */
  method ChopNewline(buf: array<char>, ghost s: string) returns (stripped: string)
    requires buf[..] == s + ['\0'] && '\0' !in s
    modifies buf
    ensures stripped == Label(s)
    ensures CStr(buf[..]) == Label(s)
  {
    var len := Strlen(buf);
    OutputLength(buf[..], s, len);
    if len > 0 && buf[len - 1] == '\n' {
      buf[len - 1] := '\0';
      CStrAt(buf[..], len - 1);
      assert buf[..len - 1] == s[..|s| - 1];
    }
    stripped := CStr(buf[..]);
  }

  /** strlen of the buffer that holds `s` and a NUL is the length of `s`. */
  lemma OutputLength(b: string, s: string, len: nat)
    requires b == s + ['\0'] && '\0' !in s
    requires len < |b| && b[len] == '\0'
    ensures len == |s|
  {
    assert forall k :: 0 <= k < |s| ==> b[k] == s[k];
  }

  // ----- get_mke2fs -----

  /** The programs get_mke2fs tries, in order of preference. */
  const Mke2fsPrograms: seq<string> := ["/sbin/mke4fs", "/sbin/mke2fs"]

  /** The index of the first of `progs` that exists, if any. */
  function FirstExisting(progs: seq<string>, fileExists: string -> bool): (r: Option<nat>)
    ensures r.Some? ==> r.value < |progs| && fileExists(progs[r.value])
    ensures r.Some? ==> forall k :: 0 <= k < r.value ==> !fileExists(progs[k])
    ensures r.None? ==> forall k :: 0 <= k < |progs| ==> !fileExists(progs[k])
  {
    if progs == [] then None
    else if fileExists(progs[0]) then Some(0)
    else match FirstExisting(progs[1..], fileExists)
      case None => None
      case Some(i) => Some(i + 1)
  }

  /** The program get_mke2fs returns, or the error when neither exists. */
  function Mke2fs(fileExists: string -> bool): (r: Reply<string>)
    ensures r.Ok? ==> r.value in Mke2fsPrograms && fileExists(r.value)
  {
    match FirstExisting(Mke2fsPrograms, fileExists)
    case None => Err(NoMke2fsBinary)
    case Some(i) => Ok(Mke2fsPrograms[i])
  }

  /** mke4fs is preferred; mke2fs is used only when mke4fs does not exist. */
  lemma Mke2fsPreference(fileExists: string -> bool)
    ensures fileExists("/sbin/mke4fs") ==> Mke2fs(fileExists) == Ok("/sbin/mke4fs")
    ensures !fileExists("/sbin/mke4fs") && fileExists("/sbin/mke2fs") ==>
              Mke2fs(fileExists) == Ok("/sbin/mke2fs")
    ensures !fileExists("/sbin/mke4fs") && !fileExists("/sbin/mke2fs") ==>
              Mke2fs(fileExists) == Err(NoMke2fsBinary)
  {
    var f := FirstExisting(Mke2fsPrograms, fileExists);
    if f.Some? {
      assert f.value == 0 || f.value == 1;
    }
  }

  /** get_mke2fs: try each program in turn and return the first that exists. */
  method GetMke2fs(fileExists: string -> bool) returns (r: Reply<string>)
    ensures r == Mke2fs(fileExists)
  {
    var progs := Mke2fsPrograms;
    var i := 0;
    while i < |progs|
      invariant 0 <= i <= |progs|
      invariant forall k :: 0 <= k < i ==> !fileExists(progs[k])
    {
      if fileExists(progs[i]) {
        FirstExistingIs(progs, fileExists, i);
        return Ok(progs[i]);
      }
      i := i + 1;
    }
    assert FirstExisting(progs, fileExists).None?;
    r := Err(NoMke2fsBinary);
  }

  /** The first index that satisfies FirstExisting's contract is FirstExisting's answer. */
  lemma FirstExistingIs(progs: seq<string>, fileExists: string -> bool, i: nat)
    requires i < |progs| && fileExists(progs[i])
    requires forall k :: 0 <= k < i ==> !fileExists(progs[k])
    ensures FirstExisting(progs, fileExists) == Some(i)
  {
    var f := FirstExisting(progs, fileExists);
    assert f.Some? && !(f.value < i) && !(i < f.value);
  }

  // ----- mke2fs with an external journal -----

  /** Where the external journal of mke2fs_J, mke2fs_JL and mke2fs_JU is. */
  datatype JournalDevice =
    | JournalPath(path: string)     // mke2fs_J: the journal device itself
    | JournalLabel(volumeLabel: string)   // mke2fs_JL: the device with this label
    | JournalUuid(uuid: string)     // mke2fs_JU: the device with this UUID

  /** The text before the argument in the journal option. */
  function JournalPrefix(d: JournalDevice): string {
    match d
    case JournalPath(_) => "device="
    case JournalLabel(_) => "device=LABEL="
    case JournalUuid(_) => "device=UUID="
  }

  function JournalArgument(d: JournalDevice): string {
    match d
    case JournalPath(p) => p
    case JournalLabel(l) => l
    case JournalUuid(u) => u
  }

  /**
   * The "-J" option: the daemon prints it into a buffer of strlen(argument) + 32
   * bytes, which always holds the whole text.
   */
  function JournalOption(d: JournalDevice): (opt: string)
    ensures opt == JournalPrefix(d) + JournalArgument(d)
  {
    Snprintf(JournalPrefix(d) + JournalArgument(d), |JournalArgument(d)| + 32)
  }

  /** How an option written by JournalOption names its device. */
  function ReadJournalOption(opt: string): (d: Option<JournalDevice>)
    ensures d.Some? ==> "device=" <= opt
  {
    if "device=LABEL=" <= opt then Some(JournalLabel(opt[13..]))
    else if "device=UUID=" <= opt then Some(JournalUuid(opt[12..]))
    else if "device=" <= opt then Some(JournalPath(opt[7..]))
    else None
  }

  /**
   * The option names the device it was made from, except for a journal path
   * that itself starts with "LABEL=" or "UUID=", which reads as a label or a UUID.
   */
  lemma JournalOptionRoundTrip(d: JournalDevice)
    ensures ReadJournalOption(JournalOption(d)) == Some(d) <==>
              !(d.JournalPath? && ("LABEL=" <= d.path || "UUID=" <= d.path))
  {
    var opt := JournalOption(d);
    var a := JournalArgument(d);
    match d
    case JournalLabel(l) =>
      assert "device=LABEL=" <= opt && opt[13..] == l;
    case JournalUuid(u) =>
      assert !("device=LABEL=" <= opt) by {
        assert opt[7] == 'U';
      }
      assert "device=UUID=" <= opt && opt[12..] == u;
    case JournalPath(p) =>
      assert opt == "device=" + p;
      PrefixAfter("device=", "LABEL=", p);
      PrefixAfter("device=", "UUID=", p);
      assert "device=LABEL=" == "device=" + "LABEL=";
      assert "device=UUID=" == "device=" + "UUID=";
      assert opt[7..] == p;
  }

  /** A prefix after a common start is a prefix of what follows that start. */
  lemma PrefixAfter(start: string, x: string, p: string)
    ensures start + x <= start + p <==> x <= p
  {
    if start + x <= start + p {
      assert x == (start + x)[|start|..];
      assert p[..|x|] == (start + p)[|start|..|start| + |x|];
    }
  }

  /** The command line of mke2fs_J, mke2fs_JL and mke2fs_JU. */
  function Mke2fsJournalArgs(prog: string, fstype: string, blocksize: int32, device: string,
                             journal: JournalDevice): (argv: seq<string>)
    ensures |argv| == 8
    ensures argv == [prog, "-t", fstype, "-J", JournalPrefix(journal) + JournalArgument(journal), "-b", argv[6], device]
    ensures argv[6] == FormatInt(blocksize as int) && ParseInt(argv[6]) == Some(blocksize as int)
  {
    var jdev := JournalOption(journal);
    var size := DecimalArg(blocksize);
    [prog, "-t", fstype, "-J", jdev, "-b", size, device]
  }

  /**
   * do_mke2fs_J, do_mke2fs_JL and do_mke2fs_JU: the command that was run, when
   * there is a program to run and it succeeds.
   */
  function Mke2fsJournal(fstype: string, blocksize: int32, device: string, journal: JournalDevice,
                         fileExists: string -> bool, run: ToolRun): (r: Reply<seq<string>>)
    ensures Mke2fs(fileExists).Err? ==> r == Err(NoMke2fsBinary)
    ensures Mke2fs(fileExists).Ok? && run.Failed? ==> r == Err(ToolFailed(run.stderr))
    ensures r.Ok? ==> (Mke2fs(fileExists).Ok? &&
              r.value == Mke2fsJournalArgs(Mke2fs(fileExists).value, fstype, blocksize, device, journal))
    ensures Mke2fs(fileExists).Ok? && run.Succeeded? ==>
              r == Ok(Mke2fsJournalArgs(Mke2fs(fileExists).value, fstype, blocksize, device, journal))
  {
    match Mke2fs(fileExists)
    case Err(e) => Err(e)
    case Ok(prog) => RunCommand(Ok(Mke2fsJournalArgs(prog, fstype, blocksize, device, journal)), run)
  }

  // ----- mke2journal -----

  /** How mke2journal, mke2journal_L and mke2journal_U name the journal they create. */
  datatype JournalName =
    | Unnamed                 // mke2journal
    | LabelName(journalLabel: string) // mke2journal_L: "-L label"
    | UuidName(uuid: string)   // mke2journal_U: "-U uuid"

  /** The command line of mke2journal, mke2journal_L and mke2journal_U. */
  function Mke2journalArgs(blocksize: int32, name: JournalName, device: string): (argv: seq<string>)
    ensures |argv| == (if name.Unnamed? then 6 else 8) && argv[|argv| - 1] == device
    ensures argv[..5] == ["/sbin/mke2fs", "-O", "journal_dev", "-b", argv[4]]
    ensures argv[4] == FormatInt(blocksize as int) && ParseInt(argv[4]) == Some(blocksize as int)
    ensures name.LabelName? ==> argv[5..7] == ["-L", name.journalLabel]
    ensures name.UuidName? ==> argv[5..7] == ["-U", name.uuid]
  {
    var head := ["/sbin/mke2fs", "-O", "journal_dev", "-b", DecimalArg(blocksize)];
    match name
    case Unnamed => head + [device]
    case LabelName(l) => head + ["-L", l, device]
    case UuidName(u) => head + ["-U", u, device]
  }

  /** do_mke2journal, do_mke2journal_L and do_mke2journal_U: the command that was run, when it succeeds. */
  function Mke2journal(blocksize: int32, name: JournalName, device: string, run: ToolRun): (r: Reply<seq<string>>)
    ensures run.Succeeded? <==> r == Ok(Mke2journalArgs(blocksize, name, device))
    ensures run.Failed? ==> r == Err(ToolFailed(run.stderr))
  {
    RunCommand(Ok(Mke2journalArgs(blocksize, name, device)), run)
  }
}
