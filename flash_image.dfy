/**
 * The HADBadge flash image (HADBadge.flash in make.py): each region's
 * address is shifted down by the 0x200000 where the badge's DFU user area
 * starts, and each file is written at its address as an 8-byte header (the
 * payload length and the payload's CRC-32, both little-endian 32-bit)
 * followed by the payload. The file contents and the CRC-32 are parameters.
 */
module FlashImage {
  import opened Bytes
  import opened Wrappers

  /** Where the badge's DFU user area starts in flash ("0x00200000"). */
  const DFU_BASE: nat := 0x200000

  /** The size of the badge's flash: 16 MiB. */
  const FLASH_SIZE: nat := 16 * 1024 * 1024

  /** One entry of FLASH_REGIONS: the file, the name of its offset constant, and its offset as hex text. */
  datatype Region = Region(filename: string, name: string, offset: string)

  const FLASH_REGIONS: seq<Region> := [
    Region("buildroot/Image", "KERNEL_IMAGE", "0x00400000"),
    Region("buildroot/rootfs.cpio", "ROOTFS_IMAGE", "0x00880000"),
    Region("buildroot/rv32.dtb", "DEVICE_TREE_IMAGE", "0x00f00000"),
    Region("emulator/emulator.bin", "EMULATOR_IMAGE", "0x00f01000")
  ]

  datatype FlashError =
    | InvalidLiteral(text: string)   // ValueError from int(text, 16)
    | PackOverflow(filename: string) // struct.error: the payload length does not fit '<I'
    | NegativeSeek(filename: string) // seek to an address below zero

  // ---------------------------------------------------------------- hex text

  function Pow16(k: nat): (r: nat)
    ensures r >= 1
  {
    if k == 0 then 1 else 16 * Pow16(k - 1)
  }

  /** A character int(s, 16) accepts as a digit. */
  predicate IsHexDigit(c: char)
  {
    '0' <= c <= '9' || 'a' <= c <= 'f' || 'A' <= c <= 'F'
  }

  /** The value of one hex digit, or None for any other character. */
  function HexValue(c: char): (r: Option<nat>)
    ensures r.Some? ==> r.value < 16
  {
    if '0' <= c <= '9' then Some(c as int - '0' as int)
    else if 'a' <= c <= 'f' then Some(c as int - 'a' as int + 10)
    else if 'A' <= c <= 'F' then Some(c as int - 'A' as int + 10)
    else None
  }

  /** The value of a string of hex digits, most significant first; None if any character is not a digit. */
  function DigitsValue(ds: string): (r: Option<nat>)
    ensures r.Some? ==> r.value < Pow16(|ds|)
  {
    if ds == [] then Some(0)
    else
      match (DigitsValue(ds[..|ds| - 1]), HexValue(ds[|ds| - 1]))
      case (Some(high), Some(d)) =>
        assert high * 16 <= Pow16(|ds|) - 16;
        Some(high * 16 + d)
      case _ => None
  }

  lemma {:induction false} Pow16Monotonic(j: nat, k: nat)
    requires j <= k
    ensures Pow16(j) <= Pow16(k)
  {
    if j < k {
      Pow16Monotonic(j, k - 1);
    }
  }

  /**
   * Exactly the hex digits have a value: 0-9 for the decimal digits, 10-15
   * for a-f, and the same for A-F.
   */
  lemma HexDigitValues(c: char)
    ensures HexValue(c).Some? <==> IsHexDigit(c)
    ensures '0' <= c <= '9' ==> HexValue(c) == Some(c as int - '0' as int)
    ensures 'a' <= c <= 'f' ==> HexValue(c) == Some(c as int - 'a' as int + 10)
    ensures 'A' <= c <= 'F' ==> HexValue(c) == Some(c as int - 'A' as int + 10)
  {
  }

  /** A string of hex digits has a value exactly when every character is a digit. */
  lemma {:induction false} DigitsValueDefined(ds: string)
    ensures DigitsValue(ds).Some? <==> forall i :: 0 <= i < |ds| ==> IsHexDigit(ds[i])
  {
    if ds != [] {
      var p := ds[..|ds| - 1];
      DigitsValueDefined(p);
      assert forall i :: 0 <= i < |p| ==> p[i] == ds[i];
    }
  }

  /** int(s, 16): an optional "0x" or "0X" prefix, then one or more hex digits. */
  function ParseHex(s: string): (r: Option<nat>)
    ensures |s| == 0 ==> r.None?
    ensures |s| == 2 && s[0] == '0' && (s[1] == 'x' || s[1] == 'X') ==> r.None?
  {
    var digits := if |s| >= 2 && s[0] == '0' && (s[1] == 'x' || s[1] == 'X') then s[2..] else s;
    if digits == [] then None else DigitsValue(digits)
  }

  /** A literal of n characters has a value below 16^n. */
  lemma ParseHexBound(s: string)
    requires ParseHex(s).Some?
    ensures ParseHex(s).value < Pow16(|s|)
  {
    var digits := if |s| >= 2 && s[0] == '0' && (s[1] == 'x' || s[1] == 'X') then s[2..] else s;
    Pow16Monotonic(|digits|, |s|);
  }

  /**
   * int(s, 16) accepts exactly a literal with at least one digit after the
   * optional "0x" or "0X" prefix and nothing but hex digits there; anything
   * else is a ValueError.
   */
  lemma ParseHexDefined(s: string)
    ensures ParseHex(s).Some? <==>
      var digits := if |s| >= 2 && s[0] == '0' && (s[1] == 'x' || s[1] == 'X') then s[2..] else s;
      digits != [] && forall i :: 0 <= i < |digits| ==> IsHexDigit(digits[i])
  {
    var digits := if |s| >= 2 && s[0] == '0' && (s[1] == 'x' || s[1] == 'X') then s[2..] else s;
    DigitsValueDefined(digits);
  }

  function HexChar(d: nat): (c: char)
    requires d < 16
    ensures HexValue(c) == Some(d)
  {
    if d < 10 then ('0' as int + d) as char else ('a' as int + d - 10) as char
  }

  /** n as w lower-case hex digits with leading zeros: "{:0{w}x}".format(n). */
  function FormatHex(n: nat, w: nat): (s: string)
    ensures |s| == w
    ensures forall i :: 0 <= i < |s| ==> s[i] != 'x' && s[i] != 'X'
  {
    if w == 0 then [] else FormatHex(n / 16, w - 1) + [HexChar(n % 16)]
  }

  lemma {:induction false} DigitsOfFormat(n: nat, w: nat)
    requires n < Pow16(w)
    ensures DigitsValue(FormatHex(n, w)) == Some(n)
  {
    if w > 0 {
      var s := FormatHex(n, w);
      assert s[..|s| - 1] == FormatHex(n / 16, w - 1);
      DigitsOfFormat(n / 16, w - 1);
    }
  }

  /** Parsing a "0x"-prefixed, zero-padded hex rendering of n gives back n. */
  lemma FormatThenParse(n: nat, w: nat)
    requires 0 < w && n < Pow16(w)
    ensures ParseHex("0x" + FormatHex(n, w)) == Some(n)
  {
    DigitsOfFormat(n, w);
    assert ("0x" + FormatHex(n, w))[2..] == FormatHex(n, w);
  }

  /** The k-th offset of FLASH_REGIONS, written as "0x" and eight digits, parses to n. */
  lemma ParseOffset(k: nat, n: nat, digits: string)
    requires k < |FLASH_REGIONS| && FLASH_REGIONS[k].offset == "0x" + digits
    requires n < Pow16(8) && FormatHex(n, 8) == digits
    ensures ParseHex(FLASH_REGIONS[k].offset) == Some(n)
  {
    FormatThenParse(n, 8);
  }

  lemma KernelOffset()
    ensures ParseHex(FLASH_REGIONS[0].offset) == Some(0x400000)
  {
    ParseOffset(0, 0x400000, "00400000");
  }

  lemma RootfsOffset()
    ensures ParseHex(FLASH_REGIONS[1].offset) == Some(0x880000)
  {
    ParseOffset(1, 0x880000, "00880000");
  }

  lemma DeviceTreeOffset()
    ensures ParseHex(FLASH_REGIONS[2].offset) == Some(0xf00000)
  {
    ParseOffset(2, 0xf00000, "00f00000");
  }

  lemma EmulatorOffset()
    ensures ParseHex(FLASH_REGIONS[3].offset) == Some(0xf01000)
  {
    ParseOffset(3, 0xf01000, "00f01000");
  }

  // ---------------------------------------------------------- region table

  /**
   * Python's d[k] = v on a dict kept as a list of pairs in insertion order:
   * an existing key keeps its place and takes the new value, a new key is
   * appended.
   */
  function Put<V>(d: seq<(string, V)>, k: string, v: V): (r: seq<(string, V)>)
    ensures (exists j :: 0 <= j < |d| && d[j].0 == k) ==> |r| == |d|
    ensures (forall j :: 0 <= j < |d| ==> d[j].0 != k) ==> r == d + [(k, v)]
    ensures forall j :: 0 <= j < |d| ==> r[j] == if d[j].0 == k then (k, v) else d[j]
  {
    if exists j :: 0 <= j < |d| && d[j].0 == k then
      seq(|d|, j requires 0 <= j < |d| => if d[j].0 == k then (k, v) else d[j])
    else
      d + [(k, v)]
  }

  /** The first loop of flash(): flash_regions[filename] = int(base, 16) - 0x200000, region by region. */
  function ShiftRegions(acc: seq<(string, int)>, regions: seq<Region>): (r: Result<seq<(string, int)>, FlashError>)
    ensures r.Failure? ==> r.error.InvalidLiteral? && !AllParse(regions)
    decreases |regions|
  {
    if regions == [] then Success(acc)
    else
      match ParseHex(regions[0].offset)
      case None => Failure(InvalidLiteral(regions[0].offset))
      case Some(base) =>
        var rest := ShiftRegions(Put(acc, regions[0].filename, base - DFU_BASE), regions[1..]);
        assert rest.Failure? ==> !AllParse(regions) by {
          if rest.Failure? {
            var k :| 0 <= k < |regions[1..]| && ParseHex(regions[1..][k].offset).None?;
            assert regions[1..][k] == regions[k + 1];
          }
        }
        rest
  }

  predicate DistinctFiles(regions: seq<Region>)
  {
    forall j, k :: 0 <= j < k < |regions| ==> regions[j].filename != regions[k].filename
  }

  predicate AllParse(regions: seq<Region>)
  {
    forall k :: 0 <= k < |regions| ==> ParseHex(regions[k].offset).Some?
  }

  /** Every region at its parsed offset less 0x200000, in order. */
  function Shifted(regions: seq<Region>): (s: seq<(string, int)>)
    requires AllParse(regions)
  {
    seq(|regions|, k requires 0 <= k < |regions| => (regions[k].filename, ParseHex(regions[k].offset).value - DFU_BASE))
  }

  lemma ShiftedCons(regions: seq<Region>)
    requires AllParse(regions) && regions != []
    ensures AllParse(regions[1..])
    ensures Shifted(regions) == [(regions[0].filename, ParseHex(regions[0].offset).value - DFU_BASE)] + Shifted(regions[1..])
  {
    var rest := regions[1..];
    assert forall k :: 0 <= k < |rest| ==> rest[k] == regions[k + 1];
    var s, t := Shifted(regions), Shifted(rest);
    assert forall k :: 0 <= k < |t| ==> s[k + 1] == t[k];
  }

  /** Building the region table fails when some offset is not hex text. */
  lemma {:induction false} ShiftRegionsFails(acc: seq<(string, int)>, regions: seq<Region>)
    requires !AllParse(regions)
    ensures ShiftRegions(acc, regions).Failure?
  {
    var k :| 0 <= k < |regions| && ParseHex(regions[k].offset).None?;
    ShiftFailsFrom(acc, regions, 0, k);
    assert regions[0..] == regions;
  }

  /** From any region up to a bad offset, the rest of the loop fails. */
  lemma {:induction false} ShiftFailsFrom(acc: seq<(string, int)>, regions: seq<Region>, i: nat, k: nat)
    requires i <= k < |regions| && ParseHex(regions[k].offset).None?
    ensures ShiftRegions(acc, regions[i..]).Failure?
    decreases k - i
  {
    var parsed := ParseHex(regions[i].offset);
    ShiftStep(acc, regions, i, parsed);
    if parsed.Some? {
      ShiftFailsFrom(Put(acc, regions[i].filename, parsed.value - DFU_BASE), regions, i + 1, k);
    }
  }

  /**
   * With distinct file names and every offset hex text, the region table
   * lists every region in order at its offset less 0x200000.
   */
  lemma {:induction false} ShiftRegionsDistinct(acc: seq<(string, int)>, regions: seq<Region>)
    requires DistinctFiles(regions) && AllParse(regions)
    requires forall j, k :: 0 <= j < |acc| && 0 <= k < |regions| ==> acc[j].0 != regions[k].filename
    ensures ShiftRegions(acc, regions) == Success(acc + Shifted(regions))
    decreases |regions|
  {
    if regions == [] {
      assert acc + Shifted(regions) == acc;
    } else {
      var rest := regions[1..];
      assert forall k :: 0 <= k < |rest| ==> rest[k] == regions[k + 1];
      var e := (regions[0].filename, ParseHex(regions[0].offset).value - DFU_BASE);
      var acc' := Put(acc, e.0, e.1);
      assert acc' == acc + [e];
      ShiftedCons(regions);
      ShiftRegionsDistinct(acc', rest);
      assert acc' + Shifted(rest) == acc + Shifted(regions);
    }
  }

  /** The HADBadge file names and shifted addresses. */
  const HADBADGE_TABLE: seq<(string, int)> := [
    ("buildroot/Image", 0x200000),
    ("buildroot/rootfs.cpio", 0x680000),
    ("buildroot/rv32.dtb", 0xd00000),
    ("emulator/emulator.bin", 0xd01000)
  ]

  /** Each HADBadge offset parses to its table address plus the DFU base. */
  lemma RegionOffset(k: nat)
    requires k < |FLASH_REGIONS|
    ensures ParseHex(FLASH_REGIONS[k].offset) == Some(HADBADGE_TABLE[k].1 + DFU_BASE)
  {
    if k == 0 {
      KernelOffset();
    } else if k == 1 {
      RootfsOffset();
    } else if k == 2 {
      DeviceTreeOffset();
    } else {
      EmulatorOffset();
    }
  }

  lemma HadBadgeShifted()
    ensures AllParse(FLASH_REGIONS)
    ensures Shifted(FLASH_REGIONS) == HADBADGE_TABLE
  {
    forall k | 0 <= k < |FLASH_REGIONS|
      ensures ParseHex(FLASH_REGIONS[k].offset).Some?
    {
      RegionOffset(k);
    }
    var s := Shifted(FLASH_REGIONS);
    forall k | 0 <= k < |FLASH_REGIONS|
      ensures s[k] == HADBADGE_TABLE[k]
    {
      RegionOffset(k);
      assert FLASH_REGIONS[k].filename == HADBADGE_TABLE[k].0;
    }
  }

  /** The HADBadge addresses, shifted into the DFU user area. */
  lemma HadBadgeAddresses()
    ensures ShiftRegions([], FLASH_REGIONS) == Success(HADBADGE_TABLE)
  {
    HadBadgeShifted();
    assert DistinctFiles(FLASH_REGIONS);
    ShiftRegionsDistinct([], FLASH_REGIONS);
    assert [] + HADBADGE_TABLE == HADBADGE_TABLE;
  }

  // ------------------------------------------------------------------ blocks

  /** One block: the payload length and its CRC-32, each struct.pack('<I'), then the payload. */
  function Block(data: seq<Byte>, crc: U32): (b: seq<Byte>)
    requires |data| < 0x1_0000_0000
    ensures |b| == 8 + |data|
    ensures FromLittleEndian32(b[..4]) == |data|
    ensures FromLittleEndian32(b[4..8]) == crc
    ensures b[8..] == data
  {
    LittleEndian32RoundTrip(|data|);
    LittleEndian32RoundTrip(crc);
    var b := LittleEndian32(|data|) + LittleEndian32(crc) + data;
    assert b[..4] == LittleEndian32(|data|);
    assert b[4..8] == LittleEndian32(crc);
    b
  }

  /** f.seek(pos); f.write(data) on a binary file: a gap before pos reads as zero bytes. */
  function WriteAt(file: seq<Byte>, pos: nat, data: seq<Byte>): (r: seq<Byte>)
    ensures |r| == if pos + |data| > |file| then pos + |data| else |file|
    ensures forall i :: 0 <= i < |r| ==>
      r[i] == if pos <= i < pos + |data| then data[i - pos] else if i < |file| then file[i] else 0
  {
    var padded := if pos > |file| then file + seq(pos - |file|, _ => 0) else file;
    var tail := if pos + |data| < |padded| then padded[pos + |data|..] else [];
    padded[..pos] + data + tail
  }

  /** The image written so far and total_len. */
  datatype Progress = Progress(image: seq<Byte>, totalLen: nat)

  /** The second loop of flash(): build each block and write it at its address, adding up the block lengths. */
  function WriteBlocks(acc: Progress, entries: seq<(string, int)>, contents: string -> seq<Byte>, crc32: seq<Byte> -> U32): (r: Result<Progress, FlashError>)
    ensures r.Failure? ==> r.error.PackOverflow? || r.error.NegativeSeek?
    decreases |entries|
  {
    if entries == [] then Success(acc)
    else
      var data := contents(entries[0].0);
      if |data| >= 0x1_0000_0000 then Failure(PackOverflow(entries[0].0))
      else if entries[0].1 < 0 then Failure(NegativeSeek(entries[0].0))
      else
        var block := Block(data, crc32(data));
        WriteBlocks(Progress(WriteAt(acc.image, entries[0].1, block), acc.totalLen + |block|), entries[1..], contents, crc32)
  }

  /** Every payload's length fits '<I' and every address is at or above zero. */
  predicate Writable(entries: seq<(string, int)>, contents: string -> seq<Byte>)
  {
    forall k :: 0 <= k < |entries| ==> |contents(entries[k].0)| < 0x1_0000_0000 && entries[k].1 >= 0
  }

  /** Writing the blocks succeeds exactly when every payload's length fits and every address is non-negative. */
  lemma {:induction false} WriteBlocksSucceeds(acc: Progress, entries: seq<(string, int)>, contents: string -> seq<Byte>, crc32: seq<Byte> -> U32)
    ensures WriteBlocks(acc, entries, contents, crc32).Success? <==> Writable(entries, contents)
    decreases |entries|
  {
    if entries != [] {
      var rest := entries[1..];
      assert forall k :: 0 <= k < |rest| ==> rest[k] == entries[k + 1];
      var data := contents(entries[0].0);
      if |data| < 0x1_0000_0000 && entries[0].1 >= 0 {
        var block := Block(data, crc32(data));
        WriteBlocksSucceeds(Progress(WriteAt(acc.image, entries[0].1, block), acc.totalLen + |block|), rest, contents, crc32);
        if Writable(rest, contents) {
          assert forall k :: 1 <= k < |entries| ==> entries[k] == rest[k - 1];
        }
      }
    }
  }

  /** The bytes all the blocks of `entries` take up: 8 + the payload length each. */
  function BlockBytes(entries: seq<(string, int)>, contents: string -> seq<Byte>): nat
  {
    if entries == [] then 0 else 8 + |contents(entries[0].0)| + BlockBytes(entries[1..], contents)
  }

  /** total_len is the sum of the block lengths. */
  lemma {:induction false} WriteBlocksTotal(acc: Progress, entries: seq<(string, int)>, contents: string -> seq<Byte>, crc32: seq<Byte> -> U32)
    requires WriteBlocks(acc, entries, contents, crc32).Success?
    ensures WriteBlocks(acc, entries, contents, crc32).value.totalLen == acc.totalLen + BlockBytes(entries, contents)
    decreases |entries|
  {
    if entries != [] {
      var data := contents(entries[0].0);
      var block := Block(data, crc32(data));
      WriteBlocksTotal(Progress(WriteAt(acc.image, entries[0].1, block), acc.totalLen + |block|), entries[1..], contents, crc32);
    }
  }

  /** The range of addresses the block of entry (filename, base) covers. */
  predicate InBlock(e: (string, int), contents: string -> seq<Byte>, i: int)
  {
    e.1 <= i < e.1 + 8 + |contents(e.0)|
  }

  /** Writing the blocks only grows the image and leaves every byte outside all the blocks as it was. */
  lemma {:induction false} WriteBlocksKeeps(acc: Progress, entries: seq<(string, int)>, contents: string -> seq<Byte>, crc32: seq<Byte> -> U32)
    requires WriteBlocks(acc, entries, contents, crc32).Success?
    ensures |WriteBlocks(acc, entries, contents, crc32).value.image| >= |acc.image|
    ensures forall i :: 0 <= i < |acc.image| && (forall k :: 0 <= k < |entries| ==> !InBlock(entries[k], contents, i)) ==>
      WriteBlocks(acc, entries, contents, crc32).value.image[i] == acc.image[i]
    decreases |entries|
  {
    if entries != [] {
      var data := contents(entries[0].0);
      var block := Block(data, crc32(data));
      var acc' := Progress(WriteAt(acc.image, entries[0].1, block), acc.totalLen + |block|);
      var rest := entries[1..];
      WriteBlocksKeeps(acc', rest, contents, crc32);
      forall i | 0 <= i < |acc.image| && (forall k :: 0 <= k < |entries| ==> !InBlock(entries[k], contents, i))
        ensures WriteBlocks(acc, entries, contents, crc32).value.image[i] == acc.image[i]
      {
        assert !InBlock(entries[0], contents, i);
        assert forall k :: 0 <= k < |rest| ==> rest[k] == entries[k + 1];
      }
    }
  }

  /** Two blocks share an address. */
  predicate Overlap(a: (string, int), b: (string, int), contents: string -> seq<Byte>)
  {
    a.1 < b.1 + 8 + |contents(b.0)| && b.1 < a.1 + 8 + |contents(a.0)|
  }

  /** The block written for entry e. */
  function BlockOf(e: (string, int), contents: string -> seq<Byte>, crc32: seq<Byte> -> U32): (b: seq<Byte>)
    requires |contents(e.0)| < 0x1_0000_0000
    ensures |b| == 8 + |contents(e.0)|
  {
    Block(contents(e.0), crc32(contents(e.0)))
  }

  lemma WriteAtSlice(file: seq<Byte>, pos: nat, data: seq<Byte>)
    ensures pos + |data| <= |WriteAt(file, pos, data)|
    ensures WriteAt(file, pos, data)[pos .. pos + |data|] == data
  {
    var r := WriteAt(file, pos, data);
    assert forall i :: 0 <= i < |data| ==> r[pos + i] == data[i];
  }

  lemma KeepsRange(acc: Progress, entries: seq<(string, int)>, contents: string -> seq<Byte>, crc32: seq<Byte> -> U32, lo: nat, hi: nat)
    requires WriteBlocks(acc, entries, contents, crc32).Success?
    requires lo <= hi <= |acc.image|
    requires forall m, i :: 0 <= m < |entries| && lo <= i < hi ==> !InBlock(entries[m], contents, i)
    ensures var image := WriteBlocks(acc, entries, contents, crc32).value.image;
      hi <= |image| && image[lo..hi] == acc.image[lo..hi]
  {
    WriteBlocksKeeps(acc, entries, contents, crc32);
  }

  /** Writing a valid first block, then the rest. */
  lemma WriteHead(acc: Progress, entries: seq<(string, int)>, contents: string -> seq<Byte>, crc32: seq<Byte> -> U32)
    requires entries != [] && |contents(entries[0].0)| < 0x1_0000_0000 && entries[0].1 >= 0
    ensures var block := BlockOf(entries[0], contents, crc32);
      WriteBlocks(acc, entries, contents, crc32)
        == WriteBlocks(Progress(WriteAt(acc.image, entries[0].1, block), acc.totalLen + |block|), entries[1..], contents, crc32)
  {
  }

  /** No later block touches the addresses of a first block that none of them overlaps. */
  lemma LaterBlocksMiss(entries: seq<(string, int)>, contents: string -> seq<Byte>)
    requires entries != []
    requires forall m :: 0 < m < |entries| ==> !Overlap(entries[0], entries[m], contents)
    ensures forall m, i :: 0 <= m < |entries[1..]| && InBlock(entries[0], contents, i) ==> !InBlock(entries[1..][m], contents, i)
  {
    var rest := entries[1..];
    assert forall m :: 0 <= m < |rest| ==> rest[m] == entries[m + 1];
  }

  /** The first block, when no later block overlaps it, is found in the final image at its address. */
  lemma FirstBlockIntact(acc: Progress, entries: seq<(string, int)>, contents: string -> seq<Byte>, crc32: seq<Byte> -> U32)
    requires Writable(entries, contents) && entries != []
    requires forall m :: 0 < m < |entries| ==> !Overlap(entries[0], entries[m], contents)
    ensures WriteBlocks(acc, entries, contents, crc32).Success?
    ensures var image := WriteBlocks(acc, entries, contents, crc32).value.image;
      && entries[0].1 + 8 + |contents(entries[0].0)| <= |image|
      && image[entries[0].1 .. entries[0].1 + 8 + |contents(entries[0].0)|] == BlockOf(entries[0], contents, crc32)
  {
    WriteBlocksSucceeds(acc, entries, contents, crc32);
    var block := BlockOf(entries[0], contents, crc32);
    var base := entries[0].1;
    var acc' := Progress(WriteAt(acc.image, base, block), acc.totalLen + |block|);
    WriteHead(acc, entries, contents, crc32);
    WriteAtSlice(acc.image, base, block);
    LaterBlocksMiss(entries, contents);
    KeepsRange(acc', entries[1..], contents, crc32, base, base + |block|);
  }

  /** A block that no later block overlaps is found in the final image at its address, intact. */
  lemma {:induction false} WriteBlocksIntact(acc: Progress, entries: seq<(string, int)>, contents: string -> seq<Byte>, crc32: seq<Byte> -> U32, k: nat)
    requires Writable(entries, contents)
    requires k < |entries|
    requires forall m :: k < m < |entries| ==> !Overlap(entries[k], entries[m], contents)
    ensures WriteBlocks(acc, entries, contents, crc32).Success?
    ensures var image := WriteBlocks(acc, entries, contents, crc32).value.image;
      && entries[k].1 + 8 + |contents(entries[k].0)| <= |image|
      && image[entries[k].1 .. entries[k].1 + 8 + |contents(entries[k].0)|] == BlockOf(entries[k], contents, crc32)
    decreases |entries|
  {
    if k == 0 {
      FirstBlockIntact(acc, entries, contents, crc32);
    } else {
      var block := BlockOf(entries[0], contents, crc32);
      var acc' := Progress(WriteAt(acc.image, entries[0].1, block), acc.totalLen + |block|);
      var rest := entries[1..];
      assert forall m :: 0 <= m < |rest| ==> rest[m] == entries[m + 1];
      assert WriteBlocks(acc, entries, contents, crc32) == WriteBlocks(acc', rest, contents, crc32);
      WriteBlocksIntact(acc', rest, contents, crc32, k - 1);
    }
  }

  // ------------------------------------------------------------------ flash()

  /** What flash() computes: the image, total_len, the remaining and the total space. */
  datatype Report = Report(image: seq<Byte>, totalLen: nat, remain: int, total: int)

  /**
   * The whole of flash() before the programming tool runs. The space left
   * is the user area's size less what the blocks take up.
   */
  function FlashPlan(regions: seq<Region>, contents: string -> seq<Byte>, crc32: seq<Byte> -> U32): (r: Result<Report, FlashError>)
    ensures r.Success? ==> r.value.total == FLASH_SIZE - DFU_BASE && r.value.remain == r.value.total - r.value.totalLen
  {
    match ShiftRegions([], regions)
    case Failure(e) => Failure(e)
    case Success(entries) =>
      match WriteBlocks(Progress([], 0), entries, contents, crc32)
      case Failure(e) => Failure(e)
      case Success(p) => Success(Report(p.image, p.totalLen, FLASH_SIZE - (DFU_BASE + p.totalLen), FLASH_SIZE - DFU_BASE))
  }

  /**
   * HADBadge.flash(), with the files' contents and binascii.crc32 as
   * parameters: the region table is built in one loop and the image in
   * another, block by block.
   */
  method Flash(regions: seq<Region>, contents: string -> seq<Byte>, crc32: seq<Byte> -> U32) returns (r: Result<Report, FlashError>)
    ensures r == FlashPlan(regions, contents, crc32)
  {
    var flashRegions := RegionTable(regions);
    if flashRegions.Failure? {
      PlanTableFails(regions, contents, crc32);
      return Failure(flashRegions.error);
    }
    var written := WriteImage(flashRegions.value, contents, crc32);
    if written.Failure? {
      PlanWriteFails(regions, contents, crc32, flashRegions.value);
      return Failure(written.error);
    }
    var p := written.value;
    PlanSucceeds(regions, contents, crc32, flashRegions.value, p);
    var remain := FLASH_SIZE - (DFU_BASE + p.totalLen);
    var total := FLASH_SIZE - DFU_BASE;
    r := Success(Report(p.image, p.totalLen, remain, total));
  }

  /** FlashPlan when the region table cannot be built. */
  lemma PlanTableFails(regions: seq<Region>, contents: string -> seq<Byte>, crc32: seq<Byte> -> U32)
    requires ShiftRegions([], regions).Failure?
    ensures FlashPlan(regions, contents, crc32) == Failure(ShiftRegions([], regions).error)
  {
  }

  /** FlashPlan when a block cannot be written. */
  lemma PlanWriteFails(regions: seq<Region>, contents: string -> seq<Byte>, crc32: seq<Byte> -> U32, table: seq<(string, int)>)
    requires ShiftRegions([], regions) == Success(table)
    requires WriteBlocks(Progress([], 0), table, contents, crc32).Failure?
    ensures FlashPlan(regions, contents, crc32) == Failure(WriteBlocks(Progress([], 0), table, contents, crc32).error)
  {
  }

  /** FlashPlan when both stages succeed: the report of the written image. */
  lemma PlanSucceeds(regions: seq<Region>, contents: string -> seq<Byte>, crc32: seq<Byte> -> U32, table: seq<(string, int)>, p: Progress)
    requires ShiftRegions([], regions) == Success(table)
    requires WriteBlocks(Progress([], 0), table, contents, crc32) == Success(p)
    ensures FlashPlan(regions, contents, crc32)
      == Success(Report(p.image, p.totalLen, FLASH_SIZE - (DFU_BASE + p.totalLen), FLASH_SIZE - DFU_BASE))
  {
    assert FlashPlan(regions, contents, crc32)
      == Success(Report(p.image, p.totalLen, FLASH_SIZE - (DFU_BASE + p.totalLen), FLASH_SIZE - DFU_BASE));
  }

  /** flash()'s first loop: the table of file names and shifted addresses. */
  method RegionTable(regions: seq<Region>) returns (r: Result<seq<(string, int)>, FlashError>)
    ensures r == ShiftRegions([], regions)
  {
    var flashRegions: seq<(string, int)> := [];
    var k := 0;
    while k < |regions|
      invariant 0 <= k <= |regions|
      invariant ShiftRegions(flashRegions, regions[k..]) == ShiftRegions([], regions)
    {
      var base := ParseHex(regions[k].offset);
      if base.None? {
        ShiftStep(flashRegions, regions, k, base);
        return Failure(InvalidLiteral(regions[k].offset));
      }
      ShiftStep(flashRegions, regions, k, base);
      flashRegions := Put(flashRegions, regions[k].filename, base.value - DFU_BASE);
      k := k + 1;
    }
    assert regions[k..] == [];
    r := Success(flashRegions);
  }

  /** flash()'s second loop: each file's block written at its address into flash.bin, and total_len. */
  method WriteImage(flashRegions: seq<(string, int)>, contents: string -> seq<Byte>, crc32: seq<Byte> -> U32) returns (r: Result<Progress, FlashError>)
    ensures r == WriteBlocks(Progress([], 0), flashRegions, contents, crc32)
  {
    var image: seq<Byte> := [];
    var totalLen: nat := 0;
    var k := 0;
    while k < |flashRegions|
      invariant 0 <= k <= |flashRegions|
      invariant WriteBlocks(Progress(image, totalLen), flashRegions[k..], contents, crc32)
             == WriteBlocks(Progress([], 0), flashRegions, contents, crc32)
    {
      var filename := flashRegions[k].0;
      var base := flashRegions[k].1;
      var data := contents(filename);
      WriteStep(Progress(image, totalLen), flashRegions, k, contents, crc32);
      if |data| >= 0x1_0000_0000 {
        return Failure(PackOverflow(filename));
      }
      var crc := crc32(data);
      var dataWrite := LittleEndian32(|data|) + LittleEndian32(crc) + data;
      if base < 0 {
        return Failure(NegativeSeek(filename));
      }
      assert dataWrite == BlockOf(flashRegions[k], contents, crc32);
      image := WriteAt(image, base, dataWrite);
      totalLen := totalLen + |dataWrite|;
      k := k + 1;
    }
    assert flashRegions[k..] == [];
    r := Success(Progress(image, totalLen));
  }

  /** One iteration of flash()'s first loop. */
  lemma ShiftStep(acc: seq<(string, int)>, regions: seq<Region>, k: nat, base: Option<nat>)
    requires k < |regions| && base == ParseHex(regions[k].offset)
    ensures base.None? ==> ShiftRegions(acc, regions[k..]) == Failure(InvalidLiteral(regions[k].offset))
    ensures base.Some? ==>
      ShiftRegions(acc, regions[k..]) == ShiftRegions(Put(acc, regions[k].filename, base.value - DFU_BASE), regions[k + 1..])
  {
    assert regions[k..][0] == regions[k];
    assert regions[k..][1..] == regions[k + 1..];
  }

  /** One iteration of flash()'s second loop. */
  lemma WriteStep(acc: Progress, entries: seq<(string, int)>, k: nat, contents: string -> seq<Byte>, crc32: seq<Byte> -> U32)
    requires k < |entries|
    ensures |contents(entries[k].0)| >= 0x1_0000_0000 ==>
      WriteBlocks(acc, entries[k..], contents, crc32) == Failure(PackOverflow(entries[k].0))
    ensures |contents(entries[k].0)| < 0x1_0000_0000 && entries[k].1 < 0 ==>
      WriteBlocks(acc, entries[k..], contents, crc32) == Failure(NegativeSeek(entries[k].0))
    ensures |contents(entries[k].0)| < 0x1_0000_0000 && entries[k].1 >= 0 ==>
      var block := BlockOf(entries[k], contents, crc32);
      WriteBlocks(acc, entries[k..], contents, crc32)
        == WriteBlocks(Progress(WriteAt(acc.image, entries[k].1, block), acc.totalLen + |block|), entries[k + 1..], contents, crc32)
  {
    assert entries[k..][0] == entries[k];
    assert entries[k..][1..] == entries[k + 1..];
  }

  /** The size bounds under which no HADBadge block runs into the next region. */
  predicate HadBadgeFits(contents: string -> seq<Byte>)
  {
    && 8 + |contents("buildroot/Image")| <= 0x480000
    && 8 + |contents("buildroot/rootfs.cpio")| <= 0x680000
    && 8 + |contents("buildroot/rv32.dtb")| <= 0x1000
    && |contents("emulator/emulator.bin")| < 0x1_0000_0000
  }

  lemma HadBadgeNoOverlap(contents: string -> seq<Byte>)
    requires HadBadgeFits(contents)
    ensures Writable(HADBADGE_TABLE, contents)
    ensures forall k, m :: 0 <= k < m < 4 ==> !Overlap(HADBADGE_TABLE[k], HADBADGE_TABLE[m], contents)
  {
  }

  lemma HadBadgeBlockBytes(contents: string -> seq<Byte>)
    ensures BlockBytes(HADBADGE_TABLE, contents)
      == 32 + |contents("buildroot/Image")| + |contents("buildroot/rootfs.cpio")|
            + |contents("buildroot/rv32.dtb")| + |contents("emulator/emulator.bin")|
  {
    var t := HADBADGE_TABLE;
    assert t[1..] == [t[1], t[2], t[3]];
    assert t[1..][1..] == [t[2], t[3]];
    assert t[1..][1..][1..] == [t[3]];
    assert t[1..][1..][1..][1..] == [];
  }

  /** Every entry's block sits, byte for byte, at the entry's address in image. */
  predicate BlocksIntact(image: seq<Byte>, entries: seq<(string, int)>, contents: string -> seq<Byte>, crc32: seq<Byte> -> U32)
  {
    forall k :: 0 <= k < |entries| ==>
      && 0 <= entries[k].1
      && |contents(entries[k].0)| < 0x1_0000_0000
      && entries[k].1 + 8 + |contents(entries[k].0)| <= |image|
      && image[entries[k].1 .. entries[k].1 + 8 + |contents(entries[k].0)|] == BlockOf(entries[k], contents, crc32)
  }

  /** Writing a table of pairwise disjoint blocks into an empty image leaves every block intact. */
  lemma DisjointBlocksIntact(entries: seq<(string, int)>, contents: string -> seq<Byte>, crc32: seq<Byte> -> U32)
    requires Writable(entries, contents)
    requires forall k, m :: 0 <= k < m < |entries| ==> !Overlap(entries[k], entries[m], contents)
    ensures WriteBlocks(Progress([], 0), entries, contents, crc32).Success?
    ensures BlocksIntact(WriteBlocks(Progress([], 0), entries, contents, crc32).value.image, entries, contents, crc32)
  {
    var init := Progress([], 0);
    WriteBlocksSucceeds(init, entries, contents, crc32);
    var image := WriteBlocks(init, entries, contents, crc32).value.image;
    forall k | 0 <= k < |entries|
      ensures entries[k].1 + 8 + |contents(entries[k].0)| <= |image|
      ensures image[entries[k].1 .. entries[k].1 + 8 + |contents(entries[k].0)|] == BlockOf(entries[k], contents, crc32)
    {
      WriteBlocksIntact(init, entries, contents, crc32, k);
    }
  }

  /** The HADBadge blocks written from the shifted table, before the report is made. */
  lemma HadBadgeWrites(contents: string -> seq<Byte>, crc32: seq<Byte> -> U32)
    requires HadBadgeFits(contents)
    ensures WriteBlocks(Progress([], 0), HADBADGE_TABLE, contents, crc32).Success?
    ensures WriteBlocks(Progress([], 0), HADBADGE_TABLE, contents, crc32).value.totalLen
      == 32 + |contents("buildroot/Image")| + |contents("buildroot/rootfs.cpio")|
            + |contents("buildroot/rv32.dtb")| + |contents("emulator/emulator.bin")|
    ensures BlocksIntact(WriteBlocks(Progress([], 0), HADBADGE_TABLE, contents, crc32).value.image, HADBADGE_TABLE, contents, crc32)
  {
    HadBadgeNoOverlap(contents);
    DisjointBlocksIntact(HADBADGE_TABLE, contents, crc32);
    WriteBlocksTotal(Progress([], 0), HADBADGE_TABLE, contents, crc32);
    HadBadgeBlockBytes(contents);
  }

  /**
   * The HADBadge image: when the kernel, root file system and device tree
   * blocks each end before the next region begins (the device tree has only
   * 0x1000 bytes), flashing succeeds, total_len is the four block lengths
   * added up, and every block sits intact at its shifted address.
   */
  lemma HadBadgeImage(contents: string -> seq<Byte>, crc32: seq<Byte> -> U32)
    requires HadBadgeFits(contents)
    ensures FlashPlan(FLASH_REGIONS, contents, crc32).Success?
    ensures FlashPlan(FLASH_REGIONS, contents, crc32).value.totalLen
      == 32 + |contents("buildroot/Image")| + |contents("buildroot/rootfs.cpio")|
            + |contents("buildroot/rv32.dtb")| + |contents("emulator/emulator.bin")|
    ensures Writable(HADBADGE_TABLE, contents)
    ensures BlocksIntact(FlashPlan(FLASH_REGIONS, contents, crc32).value.image, HADBADGE_TABLE, contents, crc32)
  {
    HadBadgeAddresses();
    HadBadgeNoOverlap(contents);
    HadBadgeWrites(contents, crc32);
    PlanFromTable(FLASH_REGIONS, HADBADGE_TABLE, contents, crc32);
  }

  /** flash() on a region table that builds: the report comes from writing that table's blocks. */
  lemma PlanFromTable(regions: seq<Region>, table: seq<(string, int)>, contents: string -> seq<Byte>, crc32: seq<Byte> -> U32)
    requires ShiftRegions([], regions) == Success(table)
    requires WriteBlocks(Progress([], 0), table, contents, crc32).Success?
    ensures FlashPlan(regions, contents, crc32).Success?
    ensures FlashPlan(regions, contents, crc32).value.image == WriteBlocks(Progress([], 0), table, contents, crc32).value.image
    ensures FlashPlan(regions, contents, crc32).value.totalLen == WriteBlocks(Progress([], 0), table, contents, crc32).value.totalLen
  {
  }
}
