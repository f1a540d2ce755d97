/**
 * mkfs_opts: the daemon runs "mkfs -t fstype [type flags] [block size option]
 * device", building the command line in a fixed array of 16 slots with a
 * NULL after the last argument.
 */
module Mkfs {
  import opened Outcome
  import opened CText

  /** The number of slots in the daemon's argv array. */
  const MaxArgs := 16

  /** The bit of optargs_bitmask that says the optional block size was given (optional argument 0). */
  const BlocksizeBitmask: bv64 := 1

  /** Whether the caller gave the optional block size. */
  predicate HasBlockSize(optargsBitmask: bv64) {
    optargsBitmask & BlocksizeBitmask != 0
  }

  /** The FAT types, whose block size becomes a number of sectors per cluster. */
  predicate IsFat(fstype: string) {
    fstype == "vfat" || fstype == "msdos"
  }

  /** 2 to the power `k`. */
  function Pow2(k: nat): (p: nat)
    ensures p >= 1
  {
    if k == 0 then 1 else 2 * Pow2(k - 1)
  }

  /** A power of two: 1, or twice a power of two. */
  predicate IsPowerOf2(n: int)
    decreases if n > 0 then n else 0
  {
    n == 1 || (n > 1 && n % 2 == 0 && IsPowerOf2(n / 2))
  }

  /** The exponent of a power of two. */
  function Log2(n: int): (k: nat)
    requires IsPowerOf2(n)
    ensures Pow2(k) == n
    decreases if n > 0 then n else 0
  {
    if n == 1 then 0 else 1 + Log2(n / 2)
  }

  /** Every power of two is one. */
  lemma {:induction false} Pow2IsPowerOf2(k: nat)
    ensures IsPowerOf2(Pow2(k))
  {
    if k > 0 {
      Pow2IsPowerOf2(k - 1);
      assert Pow2(k) / 2 == Pow2(k - 1);
    }
  }

  /** IsPowerOf2 holds of exactly the powers of two. */
  lemma PowerOf2Exactly(n: int)
    ensures IsPowerOf2(n) <==> exists k: nat :: Pow2(k) == n
  {
    if IsPowerOf2(n) {
      assert Pow2(Log2(n)) == n;
    }
    if exists k: nat :: Pow2(k) == n {
      var k: nat :| Pow2(k) == n;
      Pow2IsPowerOf2(k);
    }
  }

  /** The block sizes mkfs accepts: positive powers of two. */
  predicate ValidBlockSize(blocksize: int) {
    blocksize > 0 && IsPowerOf2(blocksize)
  }

  /** The magnitude of `n`. */
  function Abs(n: int): nat {
    if n < 0 then -n else n
  }

  /**
   * C's `/` on `int`: the quotient truncated toward zero. Its magnitude is
   * the quotient of the magnitudes, and it is negative only when the operands
   * have opposite signs.
   */
  function CDiv(a: int, b: int): (q: int)
    requires b != 0
    ensures Abs(q) == Abs(a) / Abs(b)
    ensures (a < 0) == (b < 0) ==> q >= 0
    ensures (a < 0) != (b < 0) ==> q <= 0
  {
    var m := Quotient(Abs(a), Abs(b));
    if (a < 0) == (b < 0) then m else -(m as int)
  }

  /** Division of natural numbers, which never goes below zero. */
  function Quotient(x: nat, y: nat): (m: nat)
    requires y > 0
  {
    x / y
  }

  /** The flags each filesystem type gets before the block size option. */
  function TypeFlags(fstype: string): (flags: seq<string>)
    ensures |flags| <= 5
  {
    (if fstype == "ntfs" then ["-Q"] else []) +
    (if fstype == "reiserfs" then ["-f"] else []) +
    (if fstype == "jfs" then ["-f"] else []) +
    (if fstype == "gfs" || fstype == "gfs2" then ["-p", "lock_nolock", "-j", "1", "-O"] else [])
  }

  /** ntfs is quick-formatted, reiserfs and jfs are not asked questions, gfs and gfs2 are single-node; no other type gets flags. */
  lemma TypeFlagsTable(fstype: string)
    ensures fstype == "ntfs" ==> TypeFlags(fstype) == ["-Q"]
    ensures fstype == "reiserfs" || fstype == "jfs" ==> TypeFlags(fstype) == ["-f"]
    ensures fstype == "gfs" || fstype == "gfs2" ==> TypeFlags(fstype) == ["-p", "lock_nolock", "-j", "1", "-O"]
    ensures fstype !in {"ntfs", "reiserfs", "jfs", "gfs", "gfs2"} ==> TypeFlags(fstype) == []
  {
  }

  /**
   * The block size option, when the block size was given: "-s" and the
   * number of sectors per cluster for FAT, "-c" and the block size for ntfs,
   * "-b" and the block size otherwise.
   */
  function BlockSizeOption(fstype: string, blocksize: int32, sectorSize: int32): (r: Reply<seq<string>>)
    requires ValidBlockSize(blocksize as int) && IsFat(fstype) ==> sectorSize != 0
    ensures !ValidBlockSize(blocksize as int) ==> r == Err(BadBlockSize)
    ensures r.Ok? ==> |r.value| == 2 && ValidBlockSize(blocksize as int)
    ensures r.Ok? && IsFat(fstype) ==>
              r.value[0] == "-s" && r.value[1] == FormatInt(CDiv(blocksize as int, sectorSize as int)) &&
              ParseInt(r.value[1]) == Some(CDiv(blocksize as int, sectorSize as int)) &&
              1 <= CDiv(blocksize as int, sectorSize as int) <= 128
    ensures r.Ok? && fstype == "ntfs" ==>
              r.value[0] == "-c" && r.value[1] == FormatInt(blocksize as int) && ParseInt(r.value[1]) == Some(blocksize as int)
    ensures r.Ok? && !IsFat(fstype) && fstype != "ntfs" ==>
              r.value[0] == "-b" && r.value[1] == FormatInt(blocksize as int) && ParseInt(r.value[1]) == Some(blocksize as int)
    ensures r.Err? && ValidBlockSize(blocksize as int) ==> IsFat(fstype)
    ensures r.Err? && ValidBlockSize(blocksize as int) && sectorSize == -1 ==> r == Err(SectorSizeUnavailable)
  {
    if !ValidBlockSize(blocksize as int) then Err(BadBlockSize)
    else if IsFat(fstype) then
      if sectorSize == -1 then Err(SectorSizeUnavailable)
      else
        var spc := CDiv(blocksize as int, sectorSize as int);
        if spc < 1 || spc > 128 then Err(UnsupportedClusterSize(spc))
        else Ok(["-s", DecimalArg(spc as int32)])
    else if fstype == "ntfs" then Ok(["-c", DecimalArg(blocksize)])
    else Ok(["-b", DecimalArg(blocksize)])
  }

  /** A FAT cluster outside 1..128 sectors is refused, whatever the sector size. */
  lemma ClusterSizeRange(fstype: string, blocksize: int32, sectorSize: int32)
    requires IsFat(fstype) && ValidBlockSize(blocksize as int) && sectorSize != 0 && sectorSize != -1
    ensures var spc := CDiv(blocksize as int, sectorSize as int);
            BlockSizeOption(fstype, blocksize, sectorSize).Ok? <==> 1 <= spc <= 128
    ensures var spc := CDiv(blocksize as int, sectorSize as int);
            !(1 <= spc <= 128) ==> BlockSizeOption(fstype, blocksize, sectorSize) == Err(UnsupportedClusterSize(spc))
  {
  }

  /** What mkfs_opts needs from the block device: its sector size, only for a FAT type with a valid block size. */
  predicate SectorSizeDefined(fstype: string, blocksize: int32, optargsBitmask: bv64, sectorSize: int32) {
    HasBlockSize(optargsBitmask) && ValidBlockSize(blocksize as int) && IsFat(fstype) ==> sectorSize != 0
  }

  /** The command line of mkfs_opts (without the NULL after it), or why there is none. */
  function MkfsArgs(fstype: string, device: string, blocksize: int32, optargsBitmask: bv64,
                    sectorSize: int32): (r: Reply<seq<string>>)
    requires SectorSizeDefined(fstype, blocksize, optargsBitmask, sectorSize)
    ensures r.Ok? ==> 4 <= |r.value| && |r.value| + 1 <= MaxArgs
    ensures r.Ok? ==> r.value[..3] == ["mkfs", "-t", fstype] && r.value[|r.value| - 1] == device
    ensures !HasBlockSize(optargsBitmask) ==> r.Ok?
    ensures HasBlockSize(optargsBitmask) ==> r.Ok? == BlockSizeOption(fstype, blocksize, sectorSize).Ok?
  {
    var head := ["mkfs", "-t", fstype] + TypeFlags(fstype);
    if !HasBlockSize(optargsBitmask) then Ok(head + [device])
    else
      match BlockSizeOption(fstype, blocksize, sectorSize)
      case Err(e) => Err(e)
      case Ok(opt) => Ok(head + opt + [device])
  }

  /** Without the block size bit, the command line is the type's flags and the device, and no block size option. */
  lemma MkfsWithoutBlockSize(fstype: string, device: string, blocksize: int32, optargsBitmask: bv64,
                             sectorSize: int32)
    requires !HasBlockSize(optargsBitmask)
    ensures MkfsArgs(fstype, device, blocksize, optargsBitmask, sectorSize) ==
              Ok(["mkfs", "-t", fstype] + TypeFlags(fstype) + [device])
  {
  }

  /**
   * With the block size bit, the block size option goes between the type's
   * flags and the device, and a block size that is refused refuses the whole
   * command before anything runs.
   */
  lemma MkfsWithBlockSize(fstype: string, device: string, blocksize: int32, optargsBitmask: bv64,
                          sectorSize: int32)
    requires HasBlockSize(optargsBitmask)
    requires SectorSizeDefined(fstype, blocksize, optargsBitmask, sectorSize)
    ensures var opt := BlockSizeOption(fstype, blocksize, sectorSize);
            MkfsArgs(fstype, device, blocksize, optargsBitmask, sectorSize) ==
              if opt.Ok? then Ok(["mkfs", "-t", fstype] + TypeFlags(fstype) + opt.value + [device])
              else Err(opt.error)
    ensures !ValidBlockSize(blocksize as int) ==>
              MkfsArgs(fstype, device, blocksize, optargsBitmask, sectorSize) == Err(BadBlockSize)
  {
  }

  // ----- The argv array -----

  /** The argument strings in argv slots. */
  function Slots(args: seq<string>): (slots: seq<Option<string>>)
    ensures |slots| == |args|
    ensures forall k :: 0 <= k < |args| ==> slots[k] == Some(args[k])
  {
    seq(|args|, k requires 0 <= k < |args| => Some(args[k]))
  }

  /** The arguments a NULL-terminated argv holds: the strings before the first NULL. */
  function Arguments(slots: seq<Option<string>>): (args: seq<string>)
    ensures |args| <= |slots|
  {
    if slots == [] || slots[0].None? then [] else [slots[0].value] + Arguments(slots[1..])
  }

  /** Reading back the arguments written into the slots before a NULL gives them back. */
  lemma {:induction false} ArgumentsOfSlots(args: seq<string>, rest: seq<Option<string>>)
    ensures Arguments(Slots(args) + [None] + rest) == args
  {
    if args != [] {
      assert (Slots(args) + [None] + rest)[1..] == Slots(args[1..]) + [None] + rest;
      ArgumentsOfSlots(args[1..], rest);
    }
  }

  /** argv[i++] = arg: write one argument and move to the next slot. */
  method Push(argv: array<Option<string>>, i: nat, arg: string, ghost args: seq<string>) returns (next: nat)
    requires i < argv.Length && argv[..i] == Slots(args)
    modifies argv
    ensures next == i + 1 && argv[..next] == Slots(args + [arg])
  {
    argv[i] := Some(arg);
    next := i + 1;
    assert argv[..next] == Slots(args) + [Some(arg)];
  }

  /** argv[i++] = NULL: end the arguments; the slots after it are not read. */
  method PushNull(argv: array<Option<string>>, i: nat, ghost args: seq<string>) returns (next: nat)
    requires i < argv.Length && argv[..i] == Slots(args)
    modifies argv
    ensures next == i + 1 && argv[..] == Slots(args) + [None] + argv[next..]
  {
    argv[i] := None;
    next := i + 1;
    assert argv[..next] == Slots(args) + [None];
    assert argv[..] == argv[..next] + argv[next..];
  }

  /** The flags for the filesystem type, written from slot `i` on. */
  method PushTypeFlags(argv: array<Option<string>>, i: nat, fstype: string, ghost args: seq<string>)
      returns (next: nat)
    requires i + 5 <= argv.Length && argv[..i] == Slots(args)
    modifies argv
    ensures next == i + |TypeFlags(fstype)| && argv[..next] == Slots(args + TypeFlags(fstype))
  {
    next := i;
    ghost var pushed: seq<string> := [];
    if fstype == "ntfs" {
      next := Push(argv, next, "-Q", args);
      pushed := ["-Q"];
    }
    if fstype == "reiserfs" {
      next := Push(argv, next, "-f", args);
      pushed := ["-f"];
    }
    if fstype == "jfs" {
      next := Push(argv, next, "-f", args);
      pushed := ["-f"];
    }
    if fstype == "gfs" || fstype == "gfs2" {
      next := PushSingleNode(argv, next, args);
      pushed := ["-p", "lock_nolock", "-j", "1", "-O"];
    }
    TypeFlagsTable(fstype);
    assert pushed == TypeFlags(fstype);
  }

  /** The gfs and gfs2 flags: no cluster locking, one journal, no questions. */
  method PushSingleNode(argv: array<Option<string>>, i: nat, ghost args: seq<string>) returns (next: nat)
    requires i + 5 <= argv.Length && argv[..i] == Slots(args)
    modifies argv
    ensures next == i + 5 && argv[..next] == Slots(args + ["-p", "lock_nolock", "-j", "1", "-O"])
  {
    next := Push(argv, i, "-p", args);
    next := Push(argv, next, "lock_nolock", args + ["-p"]);
    next := Push(argv, next, "-j", args + ["-p", "lock_nolock"]);
    next := Push(argv, next, "1", args + ["-p", "lock_nolock", "-j"]);
    next := Push(argv, next, "-O", args + ["-p", "lock_nolock", "-j", "1"]);
    assert args + ["-p", "lock_nolock", "-j", "1"] + ["-O"] == args + ["-p", "lock_nolock", "-j", "1", "-O"];
  }

  /**
   * The block size part of do_mkfs_opts: refuse a block size that is not a
   * positive power of two; for FAT, ask the device for its sector size and
   * refuse a cluster outside 1..128 sectors; then write the option and its
   * number from slot `i` on.
   */
  method PushBlockSize(argv: array<Option<string>>, i: nat, fstype: string, device: string, blocksize: int32,
                       blockdevGetss: string -> int32, ghost args: seq<string>) returns (next: Reply<nat>)
    requires i + 2 <= argv.Length && argv[..i] == Slots(args)
    requires ValidBlockSize(blocksize as int) && IsFat(fstype) ==> blockdevGetss(device) != 0
    modifies argv
    ensures var opt := BlockSizeOption(fstype, blocksize, blockdevGetss(device));
            next == (if opt.Ok? then Ok(i + 2) else Err(opt.error)) &&
            (opt.Ok? ==> argv[..i + 2] == Slots(args + opt.value))
  {
    if blocksize <= 0 || !IsPowerOf2(blocksize as int) {
      return Err(BadBlockSize);
    }
    var option: string;
    var blocksizeStr: string;
    if fstype == "vfat" || fstype == "msdos" {
      var sectorsize := blockdevGetss(device);
      if sectorsize == -1 {
        return Err(SectorSizeUnavailable);
      }
      var sectorsPerCluster := CDiv(blocksize as int, sectorsize as int);
      if sectorsPerCluster < 1 || sectorsPerCluster > 128 {
        return Err(UnsupportedClusterSize(sectorsPerCluster));
      }
      option, blocksizeStr := "-s", DecimalArg(sectorsPerCluster as int32);
    } else if fstype == "ntfs" {
      option, blocksizeStr := "-c", DecimalArg(blocksize);
    } else {
      option, blocksizeStr := "-b", DecimalArg(blocksize);
    }
    assert BlockSizeOption(fstype, blocksize, blockdevGetss(device)) == Ok([option, blocksizeStr]);
    var j := Push(argv, i, option, args);
    j := Push(argv, j, blocksizeStr, args + [option]);
    assert args + [option] + [blocksizeStr] == args + [option, blocksizeStr];
    next := Ok(j);
  }

  /**
   * do_mkfs_opts: fill argv, checking the block size when it was given, and
   * run the command. The daemon aborts when more than MaxArgs slots were
   * filled, which cannot happen.
   */
  method MkfsOpts(fstype: string, device: string, blocksize: int32, optargsBitmask: bv64,
                  blockdevGetss: string -> int32, run: ToolRun) returns (r: Reply<seq<string>>)
    requires SectorSizeDefined(fstype, blocksize, optargsBitmask, blockdevGetss(device))
    ensures r == RunCommand(MkfsArgs(fstype, device, blocksize, optargsBitmask, blockdevGetss(device)), run)
  {
    var argv := new Option<string>[MaxArgs](_ => None);
    var i := PushHead(argv, fstype);
    ghost var args := ["mkfs", "-t", fstype] + TypeFlags(fstype);

    if HasBlockSize(optargsBitmask) {
      var pushed := PushBlockSize(argv, i, fstype, device, blocksize, blockdevGetss, args);
      MkfsWithBlockSize(fstype, device, blocksize, optargsBitmask, blockdevGetss(device));
      if pushed.Err? {
        return Err(pushed.error);
      }
      i := pushed.value;
      args := args + BlockSizeOption(fstype, blocksize, blockdevGetss(device)).value;
    } else {
      MkfsWithoutBlockSize(fstype, device, blocksize, optargsBitmask, blockdevGetss(device));
    }

    i := PushTail(argv, i, device, args);
    if i > MaxArgs {
      assert false;
    }
    r := RunCommand(Ok(Arguments(argv[..])), run);
  }

  /** The start of every command line: mkfs -t fstype and the type's flags. */
  method PushHead(argv: array<Option<string>>, fstype: string) returns (next: nat)
    requires argv.Length == MaxArgs
    modifies argv
    ensures next == 3 + |TypeFlags(fstype)| && argv[..next] == Slots(["mkfs", "-t", fstype] + TypeFlags(fstype))
  {
    next := Push(argv, 0, "mkfs", []);
    next := Push(argv, next, "-t", ["mkfs"]);
    next := Push(argv, next, fstype, ["mkfs", "-t"]);
    next := PushTypeFlags(argv, next, fstype, ["mkfs", "-t", fstype]);
  }

  /** The end of every command line: the device, then the NULL that ends the arguments. */
  method PushTail(argv: array<Option<string>>, i: nat, device: string, ghost args: seq<string>) returns (next: nat)
    requires i + 2 <= argv.Length && argv[..i] == Slots(args)
    modifies argv
    ensures next == i + 2 && Arguments(argv[..]) == args + [device]
  {
    next := Push(argv, i, device, args);
    next := PushNull(argv, next, args + [device]);
    ArgumentsOfSlots(args + [device], argv[next..]);
  }

  /** do_mkfs: mkfs_opts without the optional block size. */
  method Mkfs(fstype: string, device: string, blockdevGetss: string -> int32, run: ToolRun)
      returns (r: Reply<seq<string>>)
    ensures r == RunCommand(Ok(["mkfs", "-t", fstype] + TypeFlags(fstype) + [device]), run)
  {
    r := MkfsOpts(fstype, device, 0, 0, blockdevGetss, run);
  }

  /** do_mkfs_b: mkfs_opts with the block size given. */
  method MkfsB(fstype: string, blocksize: int32, device: string, blockdevGetss: string -> int32,
               run: ToolRun) returns (r: Reply<seq<string>>)
    requires SectorSizeDefined(fstype, blocksize, BlocksizeBitmask, blockdevGetss(device))
    ensures r == RunCommand(MkfsArgs(fstype, device, blocksize, BlocksizeBitmask, blockdevGetss(device)), run)
  {
    r := MkfsOpts(fstype, device, blocksize, BlocksizeBitmask, blockdevGetss, run);
  }
}
