/** The validation, load-command walk and in-place rewrite of
    `replacemachheader`: a 64-bit Mach-O image whose first
    LC_VERSION_MIN_IPHONEOS load command is turned into an
    LC_VERSION_MIN_MACOSX command carrying the requested versions.

    The mapped file is an `array<byte>`; the header, load-command and
    version-min-command layouts are those of `<mach-o/loader.h>`. */
module MachO {
  import opened Bytes

  const FAT_MAGIC: u32 := 0xcafebabe
  /** FAT_MAGIC with its bytes swapped. */
  const FAT_CIGAM: u32 := 0xbebafeca
  /** The magic of a 64-bit thin Mach-O image. */
  const MH_MAGIC_64: u32 := 0xfeedfacf
  const LC_VERSION_MIN_MACOSX: u32 := 0x24
  const LC_VERSION_MIN_IPHONEOS: u32 := 0x25

  /** sizeof(mach_header_64): the first load command starts here. */
  const MACH_HEADER_64_SIZE: nat := 32
  /** Where `ncmds` sits inside mach_header_64. */
  const NCMDS_OFFSET: nat := 16
  /** sizeof(load_command): `cmd` then `cmdsize`. */
  const LOAD_COMMAND_SIZE: nat := 8
  /** sizeof(version_min_command): `cmd`, `cmdsize`, `version`, `sdk`. */
  const VERSION_MIN_COMMAND_SIZE: nat := 16

  /** How a run ends. FatUnsupported is the source's exit 4, WrongMagic its
      exit 5; NoMatch and Rewritten both return normally (exit 0).
      OutOfBounds stands where the source would read or write past the end
      of the mapped file, which it does not check. */
  datatype Outcome =
    | FatUnsupported
    | WrongMagic
    | OutOfBounds
    | NoMatch
    | Rewritten(offset: nat)

  // ---------------------------------------------------------------------
  // Reading the image
  // ---------------------------------------------------------------------

  predicate IsFatMagic(m: u32)
  {
    m == FAT_MAGIC || m == FAT_CIGAM
  }

  /** The image starts with a whole mach_header_64 carrying MH_MAGIC_64. */
  predicate HeaderAccepted(b: seq<byte>)
  {
    |b| >= MACH_HEADER_64_SIZE && U32At(b, 0) == MH_MAGIC_64
  }

  /** `ncmds` of the header. */
  function NCmds(b: seq<byte>): nat
    requires |b| >= MACH_HEADER_64_SIZE
  {
    U32At(b, NCMDS_OFFSET) as nat
  }

  /** `cmdsize` of the load command at `off`, or 0 if it is not in the image. */
  function CmdSizeAt(b: seq<byte>, off: nat): nat
  {
    if off + LOAD_COMMAND_SIZE <= |b| then U32At(b, off + 4) as nat else 0
  }

  /** A load command lies at `off` and its `cmd` is LC_VERSION_MIN_IPHONEOS. */
  predicate IsIPhoneCmd(b: seq<byte>, off: nat)
  {
    off + LOAD_COMMAND_SIZE <= |b| && U32At(b, off) == LC_VERSION_MIN_IPHONEOS
  }

  /** A load command lies at `off` and the walk steps over it. */
  predicate Passes(b: seq<byte>, off: nat)
  {
    off + LOAD_COMMAND_SIZE <= |b| && U32At(b, off) != LC_VERSION_MIN_IPHONEOS
  }

  /** Where the walk stands after stepping over k commands from `start`:
      `start` plus the `cmdsize` of each command stepped over. */
  function OffsetFrom(b: seq<byte>, start: nat, k: nat): nat
  {
    if k == 0 then start
    else OffsetFrom(b, start, k - 1) + CmdSizeAt(b, OffsetFrom(b, start, k - 1))
  }

  /** The offset of the k-th load command the walk visits (counting from 0):
      the end of the header plus the sizes of the k commands before it. */
  function CommandOffset(b: seq<byte>, k: nat): nat
  {
    OffsetFrom(b, MACH_HEADER_64_SIZE, k)
  }

  // ---------------------------------------------------------------------
  // The walk, as a function of the image
  // ---------------------------------------------------------------------

  /** The walk from `cursor` with `remaining` commands still allowed: stop
      at the first LC_VERSION_MIN_IPHONEOS command, otherwise advance by
      `cmdsize`. The count, not the cursor, bounds the walk, so a `cmdsize`
      of 0 only makes it visit the same command again. */
  function ScanFrom(b: seq<byte>, cursor: nat, remaining: nat): (r: Outcome)
    ensures r.NoMatch? || r.OutOfBounds? || r.Rewritten?
    ensures r.Rewritten? ==>
              cursor <= r.offset && r.offset + VERSION_MIN_COMMAND_SIZE <= |b| && IsIPhoneCmd(b, r.offset)
    decreases remaining
  {
    if remaining == 0 then NoMatch
    else if |b| < cursor + LOAD_COMMAND_SIZE then OutOfBounds
    else if U32At(b, cursor) == LC_VERSION_MIN_IPHONEOS then
      if |b| < cursor + VERSION_MIN_COMMAND_SIZE then OutOfBounds else Rewritten(cursor)
    else ScanFrom(b, cursor + CmdSizeAt(b, cursor), remaining - 1)
  }

  /** The outcome of `replacemachheader` on the image `b`: the fat check
      first, then the magic check, then the walk over `ncmds` commands. */
  function Walk(b: seq<byte>): (r: Outcome)
    ensures r.FatUnsupported? <==> |b| >= 4 && IsFatMagic(U32At(b, 0))
    ensures r.WrongMagic? <==>
              |b| >= 4 && !IsFatMagic(U32At(b, 0)) && U32At(b, 0) != MH_MAGIC_64
    ensures (r.NoMatch? || r.Rewritten?) ==> HeaderAccepted(b)
    ensures r.Rewritten? ==>
              MACH_HEADER_64_SIZE <= r.offset && r.offset + VERSION_MIN_COMMAND_SIZE <= |b|
              && IsIPhoneCmd(b, r.offset)
  {
    if |b| < 4 then OutOfBounds
    else if IsFatMagic(U32At(b, 0)) then FatUnsupported
    else if U32At(b, 0) != MH_MAGIC_64 then WrongMagic
    else if |b| < MACH_HEADER_64_SIZE then OutOfBounds
    else ScanFrom(b, MACH_HEADER_64_SIZE, NCmds(b))
  }

  /** The exit status the source gives each outcome it can reach. */
  function ExitStatus(o: Outcome): (code: int)
    requires !o.OutOfBounds?
    ensures code == 0 <==> o.NoMatch? || o.Rewritten?
    ensures code == 4 <==> o.FatUnsupported?
    ensures code == 5 <==> o.WrongMagic?
  {
    match o
    case FatUnsupported => 4
    case WrongMagic => 5
    case _ => 0
  }

  // ---------------------------------------------------------------------
  // The rewrite, as a function of the image
  // ---------------------------------------------------------------------

  /** The 16 bytes of a version_min_command: cmd = LC_VERSION_MIN_MACOSX,
      cmdsize = 16, then `version` and `sdk`. */
  function MacVersionMinCommand(minVersion: u32, sdk: u32): (r: seq<byte>)
    ensures |r| == VERSION_MIN_COMMAND_SIZE
    ensures U32At(r, 0) == LC_VERSION_MIN_MACOSX
    ensures U32At(r, 4) == VERSION_MIN_COMMAND_SIZE as u32
    ensures U32At(r, 8) == minVersion
    ensures U32At(r, 12) == sdk
  {
    var r := LeBytes(LC_VERSION_MIN_MACOSX) + LeBytes(VERSION_MIN_COMMAND_SIZE as u32)
             + LeBytes(minVersion) + LeBytes(sdk);
    ReadStoredWord(r, 0, LC_VERSION_MIN_MACOSX);
    ReadStoredWord(r, 4, VERSION_MIN_COMMAND_SIZE as u32);
    ReadStoredWord(r, 8, minVersion);
    ReadStoredWord(r, 12, sdk);
    r
  }

  /** The image with the 16 bytes at `off` replaced by the macOS
      version-min command: same length, every other byte unchanged. */
  function Patched(b: seq<byte>, off: nat, minVersion: u32, sdk: u32): (r: seq<byte>)
    requires off + VERSION_MIN_COMMAND_SIZE <= |b|
    ensures |r| == |b|
    ensures forall i :: 0 <= i < |b| && (i < off || off + VERSION_MIN_COMMAND_SIZE <= i) ==> r[i] == b[i]
    ensures U32At(r, off) == LC_VERSION_MIN_MACOSX
    ensures U32At(r, off + 4) == VERSION_MIN_COMMAND_SIZE as u32
    ensures U32At(r, off + 8) == minVersion
    ensures U32At(r, off + 12) == sdk
  {
    var c := MacVersionMinCommand(minVersion, sdk);
    var r := b[..off] + c + b[off + VERSION_MIN_COMMAND_SIZE..];
    assert forall k :: 0 <= k < VERSION_MIN_COMMAND_SIZE ==> r[off + k] == c[k];
    r
  }

  /** The image after `replacemachheader(…, sdk, minVersion)`. */
  function Rewrite(b: seq<byte>, sdk: u32, minVersion: u32): seq<byte>
  {
    match Walk(b)
    case Rewritten(off) => Patched(b, off, minVersion, sdk)
    case _ => b
  }

  // ---------------------------------------------------------------------
  // replacemachheader
  // ---------------------------------------------------------------------

  /** The part of `replacemachheader` that works on the mapped file:
      reject fat and non-64-bit images, then walk at most `ncmds` load
      commands and overwrite the first LC_VERSION_MIN_IPHONEOS command in
      place. */
  method ReplaceMachHeader(file: array<byte>, sdk: u32, minVersion: u32) returns (outcome: Outcome)
    modifies file
    ensures outcome == Walk(old(file[..]))
    ensures file[..] == Rewrite(old(file[..]), sdk, minVersion)
  {
    ghost var b := file[..];
    if file.Length < 4 {
      return OutOfBounds;
    }
    var magic := LoadU32(file, 0);
    if magic == FAT_MAGIC || magic == FAT_CIGAM {
      return FatUnsupported;
    }
    if magic != MH_MAGIC_64 {
      return WrongMagic;
    }
    if file.Length < MACH_HEADER_64_SIZE {
      return OutOfBounds;
    }
    var cursor: nat := MACH_HEADER_64_SIZE;
    var commandNum := LoadU32(file, NCMDS_OFFSET);
    if commandNum > 0 {
      var i: nat := 0;
      while i < commandNum as nat
        invariant i <= commandNum as nat
        invariant file[..] == b
        invariant Walk(b) == ScanFrom(b, cursor, commandNum as nat - i)
      {
        if file.Length < cursor + LOAD_COMMAND_SIZE {
          return OutOfBounds;
        }
        var cmd := LoadU32(file, cursor);
        if cmd == LC_VERSION_MIN_IPHONEOS {
          if file.Length < cursor + VERSION_MIN_COMMAND_SIZE {
            return OutOfBounds;
          }
          WriteCommand(file, cursor, minVersion, sdk);
          return Rewritten(cursor);
        }
        var cmdsize := LoadU32(file, cursor + 4);
        cursor := cursor + cmdsize as nat;
        i := i + 1;
      }
    }
    return NoMatch;
  }

  /** Overwrites the 16 bytes at `off` with the macOS version-min command.
      The source copies the old command out, sets all four fields and
      copies it back, so none of the old bytes survive. */
  method WriteCommand(file: array<byte>, off: nat, minVersion: u32, sdk: u32)
    requires off + VERSION_MIN_COMMAND_SIZE <= file.Length
    modifies file
    ensures file[..] == Patched(old(file[..]), off, minVersion, sdk)
  {
    ghost var b := file[..];
    var command := MacVersionMinCommand(minVersion, sdk);
    for j := 0 to VERSION_MIN_COMMAND_SIZE
      invariant forall t :: 0 <= t < file.Length ==>
                  file[t] == if off <= t < off + j then command[t - off] else b[t]
    {
      file[off + j] := command[j];
    }
    assert file[..] == Patched(b, off, minVersion, sdk);
  }

  // ---------------------------------------------------------------------
  // What the walk finds
  // ---------------------------------------------------------------------

  lemma {:induction false} OffsetFromShift(b: seq<byte>, start: nat, k: nat)
    ensures OffsetFrom(b, start, k + 1) == OffsetFrom(b, start + CmdSizeAt(b, start), k)
  {
    if k > 0 {
      OffsetFromShift(b, start, k - 1);
    }
  }

  /** Visited offsets never decrease. */
  lemma {:induction false} OffsetsIncrease(b: seq<byte>, start: nat, i: nat, j: nat)
    requires i <= j
    ensures OffsetFrom(b, start, i) <= OffsetFrom(b, start, j)
  {
    if i < j {
      OffsetsIncrease(b, start, i, j - 1);
    }
  }

  /** A successful scan stopped at the k-th visited command, which is an
      LC_VERSION_MIN_IPHONEOS command, after stepping over k others. */
  lemma {:induction false} ScanFromStopsAtMatch(b: seq<byte>, s: nat, n: nat) returns (k: nat)
    requires ScanFrom(b, s, n).Rewritten?
    ensures k < n
    ensures ScanFrom(b, s, n).offset == OffsetFrom(b, s, k)
    ensures forall j :: 0 <= j < k ==> Passes(b, OffsetFrom(b, s, j))
    decreases n
  {
    if U32At(b, s) == LC_VERSION_MIN_IPHONEOS {
      k := 0;
    } else {
      var s' := s + CmdSizeAt(b, s);
      var k' := ScanFromStopsAtMatch(b, s', n - 1);
      k := k' + 1;
      OffsetFromShift(b, s, k');
      forall j | 0 <= j < k
        ensures Passes(b, OffsetFrom(b, s, j))
      {
        if j > 0 {
          OffsetFromShift(b, s, j - 1);
        }
      }
    }
  }

  lemma {:induction false} ScanFromFindsMatch(b: seq<byte>, s: nat, n: nat, k: nat)
    requires k < n
    requires forall j :: 0 <= j < k ==> Passes(b, OffsetFrom(b, s, j))
    requires IsIPhoneCmd(b, OffsetFrom(b, s, k))
    requires OffsetFrom(b, s, k) + VERSION_MIN_COMMAND_SIZE <= |b|
    ensures ScanFrom(b, s, n) == Rewritten(OffsetFrom(b, s, k))
    decreases n
  {
    if k > 0 {
      assert Passes(b, OffsetFrom(b, s, 0));
      var s' := s + CmdSizeAt(b, s);
      forall j | 0 <= j < k - 1
        ensures Passes(b, OffsetFrom(b, s', j))
      {
        OffsetFromShift(b, s, j);
        assert Passes(b, OffsetFrom(b, s, j + 1));
      }
      OffsetFromShift(b, s, k - 1);
      ScanFromFindsMatch(b, s', n - 1, k - 1);
    }
  }

  /** The walk from `s` steps over each of its first `n` commands. */
  predicate StepsOver(b: seq<byte>, s: nat, n: nat)
  {
    forall j :: 0 <= j < n ==> Passes(b, OffsetFrom(b, s, j))
  }

  /** Stepping over n commands from `s` is stepping over the one at `s`
      and then n - 1 more from where it ends. */
  lemma StepsOverFirst(b: seq<byte>, s: nat, n: nat)
    requires n > 0
    ensures StepsOver(b, s, n) <==> Passes(b, s) && StepsOver(b, s + CmdSizeAt(b, s), n - 1)
  {
    var s' := s + CmdSizeAt(b, s);
    forall j | 0 <= j < n - 1
      ensures OffsetFrom(b, s, j + 1) == OffsetFrom(b, s', j)
    {
      OffsetFromShift(b, s, j);
    }
    if StepsOver(b, s, n) {
      assert Passes(b, OffsetFrom(b, s, 0));
      forall j | 0 <= j < n - 1
        ensures Passes(b, OffsetFrom(b, s', j))
      {
        assert Passes(b, OffsetFrom(b, s, j + 1));
      }
    }
    if Passes(b, s) && StepsOver(b, s', n - 1) {
      forall j | 0 <= j < n
        ensures Passes(b, OffsetFrom(b, s, j))
      {
        if j > 0 {
          assert Passes(b, OffsetFrom(b, s', j - 1));
        }
      }
    }
  }

  /** A scan ends without a match exactly when it steps over all its commands. */
  lemma {:induction false} ScanFromNoMatch(b: seq<byte>, s: nat, n: nat)
    ensures ScanFrom(b, s, n) == NoMatch <==> StepsOver(b, s, n)
    decreases n
  {
    if n > 0 {
      ScanFromNoMatch(b, s + CmdSizeAt(b, s), n - 1);
      StepsOverFirst(b, s, n);
    }
  }

  lemma {:induction false} ScanFromOutOfBounds(b: seq<byte>, s: nat, n: nat) returns (k: nat)
    requires ScanFrom(b, s, n) == OutOfBounds
    ensures k < n
    ensures forall j :: 0 <= j < k ==> Passes(b, OffsetFrom(b, s, j))
    ensures |b| < OffsetFrom(b, s, k) + LOAD_COMMAND_SIZE
            || (IsIPhoneCmd(b, OffsetFrom(b, s, k)) && |b| < OffsetFrom(b, s, k) + VERSION_MIN_COMMAND_SIZE)
    decreases n
  {
    if |b| < s + LOAD_COMMAND_SIZE || U32At(b, s) == LC_VERSION_MIN_IPHONEOS {
      k := 0;
    } else {
      var s' := s + CmdSizeAt(b, s);
      var k' := ScanFromOutOfBounds(b, s', n - 1);
      k := k' + 1;
      OffsetFromShift(b, s, k');
      forall j | 0 <= j < k
        ensures Passes(b, OffsetFrom(b, s, j))
      {
        if j > 0 {
          OffsetFromShift(b, s, j - 1);
        }
      }
    }
  }

  /** A rewrite happens at the first LC_VERSION_MIN_IPHONEOS command among
      the first `ncmds` commands: every command visited before it is in the
      image and is of another kind. */
  lemma RewritesFirstIPhoneCommand(b: seq<byte>) returns (k: nat)
    requires Walk(b).Rewritten?
    ensures HeaderAccepted(b) && k < NCmds(b)
    ensures Walk(b).offset == CommandOffset(b, k)
    ensures IsIPhoneCmd(b, CommandOffset(b, k))
    ensures CommandOffset(b, k) + VERSION_MIN_COMMAND_SIZE <= |b|
    ensures forall j :: 0 <= j < k ==> Passes(b, CommandOffset(b, j))
  {
    k := ScanFromStopsAtMatch(b, MACH_HEADER_64_SIZE, NCmds(b));
  }

  /** Conversely, when the k-th command is the first LC_VERSION_MIN_IPHONEOS
      command and it fits, that is the one rewritten. */
  lemma FirstIPhoneCommandIsRewritten(b: seq<byte>, k: nat)
    requires HeaderAccepted(b) && k < NCmds(b)
    requires forall j :: 0 <= j < k ==> Passes(b, CommandOffset(b, j))
    requires IsIPhoneCmd(b, CommandOffset(b, k))
    requires CommandOffset(b, k) + VERSION_MIN_COMMAND_SIZE <= |b|
    ensures Walk(b) == Rewritten(CommandOffset(b, k))
  {
    forall j | 0 <= j < k
      ensures Passes(b, OffsetFrom(b, MACH_HEADER_64_SIZE, j))
    {
      assert Passes(b, CommandOffset(b, j));
    }
    ScanFromFindsMatch(b, MACH_HEADER_64_SIZE, NCmds(b), k);
  }

  /** The walk ends without a match exactly when the header is accepted and
      each of the first `ncmds` commands is in the image and of another kind
      (in particular when `ncmds` is 0). */
  lemma NoMatchIff(b: seq<byte>)
    ensures Walk(b) == NoMatch <==>
              HeaderAccepted(b) && forall j :: 0 <= j < NCmds(b) ==> Passes(b, CommandOffset(b, j))
  {
    if HeaderAccepted(b) {
      ScanFromNoMatch(b, MACH_HEADER_64_SIZE, NCmds(b));
      if StepsOver(b, MACH_HEADER_64_SIZE, NCmds(b)) {
        forall j | 0 <= j < NCmds(b)
          ensures Passes(b, CommandOffset(b, j))
        {
          assert Passes(b, OffsetFrom(b, MACH_HEADER_64_SIZE, j));
        }
      }
      if forall j :: 0 <= j < NCmds(b) ==> Passes(b, CommandOffset(b, j)) {
        forall j | 0 <= j < NCmds(b)
          ensures Passes(b, OffsetFrom(b, MACH_HEADER_64_SIZE, j))
        {
          assert Passes(b, CommandOffset(b, j));
        }
      }
    }
  }

  /** With an accepted header, the walk runs off the image only at a visited
      command whose header, or whose 16 bytes to rewrite, do not fit. */
  lemma OutOfBoundsAt(b: seq<byte>) returns (k: nat)
    requires HeaderAccepted(b) && Walk(b) == OutOfBounds
    ensures k < NCmds(b)
    ensures forall j :: 0 <= j < k ==> Passes(b, CommandOffset(b, j))
    ensures |b| < CommandOffset(b, k) + LOAD_COMMAND_SIZE
            || (IsIPhoneCmd(b, CommandOffset(b, k)) && |b| < CommandOffset(b, k) + VERSION_MIN_COMMAND_SIZE)
  {
    k := ScanFromOutOfBounds(b, MACH_HEADER_64_SIZE, NCmds(b));
  }

  // ---------------------------------------------------------------------
  // What the rewrite changes
  // ---------------------------------------------------------------------

  /** A rejected image, an image the walk runs off, and an image without a
      match are left byte for byte as they were. */
  lemma RewriteLeavesUnmatchedImage(b: seq<byte>, sdk: u32, minVersion: u32)
    requires !Walk(b).Rewritten?
    ensures Rewrite(b, sdk, minVersion) == b
  {
  }

  /** A rewrite changes only the 16 bytes of the matched command, which then
      read cmd = LC_VERSION_MIN_MACOSX, cmdsize = 16, version = minVersion,
      sdk = sdk; the header, `ncmds` included, and the length are kept. */
  lemma RewriteChangesOnlyMatchedCommand(b: seq<byte>, sdk: u32, minVersion: u32)
    requires Walk(b).Rewritten?
    ensures var r, off := Rewrite(b, sdk, minVersion), Walk(b).offset;
            && |r| == |b|
            && r[..MACH_HEADER_64_SIZE] == b[..MACH_HEADER_64_SIZE]
            && NCmds(r) == NCmds(b)
            && (forall i :: 0 <= i < |b| && (i < off || off + VERSION_MIN_COMMAND_SIZE <= i) ==> r[i] == b[i])
            && U32At(r, off) == LC_VERSION_MIN_MACOSX
            && U32At(r, off + 4) == VERSION_MIN_COMMAND_SIZE as u32
            && U32At(r, off + 8) == minVersion
            && U32At(r, off + 12) == sdk
  {
  }

  /** In the patched image the walk visits the same offsets as in the
      original, provided no command before the patch overlaps it and the
      patched command already had `cmdsize` 16. */
  lemma {:induction false} PatchKeepsOffsets(b: seq<byte>, p: seq<byte>, k: nat, j: nat)
    requires HeaderAccepted(b) && k < NCmds(b) && j <= NCmds(b)
    requires CommandOffset(b, k) + VERSION_MIN_COMMAND_SIZE <= |b|
    requires forall i :: 0 <= i < k ==> CmdSizeAt(b, CommandOffset(b, i)) >= LOAD_COMMAND_SIZE
    requires CmdSizeAt(b, CommandOffset(b, k)) == VERSION_MIN_COMMAND_SIZE
    requires |p| == |b|
    requires forall i :: 0 <= i < |b| && (i < CommandOffset(b, k) || CommandOffset(b, k) + VERSION_MIN_COMMAND_SIZE <= i)
               ==> p[i] == b[i]
    requires U32At(p, CommandOffset(b, k) + 4) == VERSION_MIN_COMMAND_SIZE as u32
    ensures CommandOffset(p, j) == CommandOffset(b, j)
  {
    if j > 0 {
      PatchKeepsOffsets(b, p, k, j - 1);
      var off := CommandOffset(b, k);
      var o := CommandOffset(b, j - 1);
      if j - 1 < k {
        OffsetsIncrease(b, MACH_HEADER_64_SIZE, j, k);
        assert o + LOAD_COMMAND_SIZE <= off;
      } else if j - 1 > k {
        OffsetsIncrease(b, MACH_HEADER_64_SIZE, k + 1, j - 1);
        assert off + VERSION_MIN_COMMAND_SIZE <= o;
      }
      assert CmdSizeAt(p, o) == CmdSizeAt(b, o);
    }
  }

  /** After the patch, none of the first `ncmds` commands is an
      LC_VERSION_MIN_IPHONEOS command any more, under the layout conditions
      of PatchKeepsOffsets and when no later command was one. */
  lemma PatchLeavesNoIPhoneCommand(b: seq<byte>, p: seq<byte>, k: nat, j: nat)
    requires HeaderAccepted(b) && k < NCmds(b) && j < NCmds(b)
    requires forall i :: 0 <= i < k ==>
               Passes(b, CommandOffset(b, i)) && CmdSizeAt(b, CommandOffset(b, i)) >= LOAD_COMMAND_SIZE
    requires CommandOffset(b, k) + VERSION_MIN_COMMAND_SIZE <= |b|
    requires CmdSizeAt(b, CommandOffset(b, k)) == VERSION_MIN_COMMAND_SIZE
    requires forall i :: k < i < NCmds(b) ==> !IsIPhoneCmd(b, CommandOffset(b, i))
    requires |p| == |b|
    requires forall i :: 0 <= i < |b| && (i < CommandOffset(b, k) || CommandOffset(b, k) + VERSION_MIN_COMMAND_SIZE <= i)
               ==> p[i] == b[i]
    requires U32At(p, CommandOffset(b, k)) == LC_VERSION_MIN_MACOSX
    requires U32At(p, CommandOffset(b, k) + 4) == VERSION_MIN_COMMAND_SIZE as u32
    ensures !IsIPhoneCmd(p, CommandOffset(p, j))
  {
    PatchKeepsOffsets(b, p, k, j);
    var off := CommandOffset(b, k);
    var o := CommandOffset(b, j);
    if j < k {
      OffsetsIncrease(b, MACH_HEADER_64_SIZE, j + 1, k);
      assert Passes(b, o);
      assert U32At(p, o) == U32At(b, o);
    } else if j > k {
      OffsetsIncrease(b, MACH_HEADER_64_SIZE, k + 1, j);
      if o + LOAD_COMMAND_SIZE <= |b| {
        assert U32At(p, o) == U32At(b, o);
        assert !IsIPhoneCmd(b, o);
      }
    }
  }

  /** Running the tool a second time, with any versions, changes nothing,
      provided the image is laid out as the format intends up to the match
      (each earlier command at least 8 bytes, the matched command exactly
      16 bytes) and no later command among the first `ncmds` is another
      LC_VERSION_MIN_IPHONEOS command. In particular rewriting twice gives
      the same bytes as rewriting once. */
  lemma SecondRunChangesNothing(b: seq<byte>, k: nat, sdk: u32, minVersion: u32, sdk2: u32, minVersion2: u32)
    requires HeaderAccepted(b) && k < NCmds(b)
    requires forall j :: 0 <= j < k ==>
               Passes(b, CommandOffset(b, j)) && CmdSizeAt(b, CommandOffset(b, j)) >= LOAD_COMMAND_SIZE
    requires IsIPhoneCmd(b, CommandOffset(b, k))
    requires CommandOffset(b, k) + VERSION_MIN_COMMAND_SIZE <= |b|
    requires CmdSizeAt(b, CommandOffset(b, k)) == VERSION_MIN_COMMAND_SIZE
    requires forall j :: k < j < NCmds(b) ==> !IsIPhoneCmd(b, CommandOffset(b, j))
    ensures Rewrite(Rewrite(b, sdk, minVersion), sdk2, minVersion2) == Rewrite(b, sdk, minVersion)
  {
    var off := CommandOffset(b, k);
    FirstIPhoneCommandIsRewritten(b, k);
    var p := Patched(b, off, minVersion, sdk);
    assert Rewrite(b, sdk, minVersion) == p;
    RewriteChangesOnlyMatchedCommand(b, sdk, minVersion);
    assert HeaderAccepted(p) && NCmds(p) == NCmds(b);
    if Walk(p).Rewritten? {
      var k' := RewritesFirstIPhoneCommand(p);
      PatchLeavesNoIPhoneCommand(b, p, k, k');
      assert false;
    }
  }
}
