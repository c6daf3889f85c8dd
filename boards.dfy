/**
 * Board selection in make.py's main(): the --board argument picks one
 * supported board (after lower-casing it and turning spaces into
 * underscores) or, when it is exactly "all", every supported board in the
 * order they are declared; each board then gets its SoC keyword options and,
 * when it has a SPI flash, its flash geometry and flash-offset constants.
 */
module Boards {
  import opened Wrappers
  import opened FlashImage

  const KB: nat := 1024

  /** A board's SPIFLASH_PAGE_SIZE, SPIFLASH_SECTOR_SIZE and SPIFLASH_DUMMY_CYCLES. */
  datatype Spiflash = Spiflash(pageSize: nat, sectorSize: nat, dummyCycles: nat)

  /** The vendor group a board is listed under in supported_boards. */
  datatype Family = Xilinx | Lattice | Altera

  /**
   * One supported board: its key, its vendor group, its soc_capabilities,
   * its SPI flash class attributes if it declares them, and its
   * FLASH_REGIONS (empty when the class has none).
   */
  datatype Board = Board(name: string, family: Family, capabilities: set<string>, spiflash: Option<Spiflash>, flashRegions: seq<Region>)

  const SUPPORTED: seq<Board> := [
    Board("arty", Xilinx, {"serial", "ethernet", "spiflash", "leds", "rgb_led", "switches", "spi", "i2c", "xadc", "icap_bit", "mmcm"},
          Some(Spiflash(256, 64 * KB, 11)), []),
    Board("netv2", Xilinx, {"serial", "ethernet", "framebuffer", "spiflash", "leds", "xadc"}, Some(Spiflash(256, 64 * KB, 11)), []),
    Board("genesys2", Xilinx, {"serial", "ethernet"}, None, []),
    Board("kc705", Xilinx, {"serial", "ethernet", "leds", "xadc"}, None, []),
    Board("kcu105", Xilinx, {"serial", "ethernet"}, None, []),
    Board("nexys4ddr", Xilinx, {"serial", "ethernet"}, None, []),
    Board("nexys_video", Xilinx, {"serial", "framebuffer"}, None, []),
    Board("minispartan6", Xilinx, {"serial"}, None, []),
    Board("pipistrello", Xilinx, {"serial"}, None, []),
    Board("versa_ecp5", Lattice, {"serial", "ethernet", "spiflash"}, Some(Spiflash(256, 64 * KB, 11)), []),
    Board("ulx3s", Lattice, {"serial"}, None, []),
    Board("hadbadge", Lattice, {"usb_cdc", "spiflash"}, Some(Spiflash(256, 64 * KB, 6)), FLASH_REGIONS),
    Board("orangecrab", Lattice, {"serial"}, None, []),
    Board("camlink_4k", Lattice, {"serial"}, None, []),
    Board("de0nano", Altera, {"serial"}, None, []),
    Board("de10lite", Altera, {"serial"}, None, []),
    Board("de10nano", Altera, {"serial", "leds", "switches"}, None, [])
  ]

  /** The index of the hadbadge entry in SUPPORTED. */
  const HADBADGE: nat := 11

  // ------------------------------------------------------------ board names

  predicate IsUpper(c: char)
  {
    'A' <= c <= 'Z'
  }

  /** str.lower() on ASCII letters. */
  function LowerAscii(s: string): (r: string)
    ensures |r| == |s|
    ensures forall i :: 0 <= i < |s| ==> !IsUpper(r[i])
    ensures forall i :: 0 <= i < |s| ==> (r[i] == ' ' <==> s[i] == ' ')
    ensures forall i :: 0 <= i < |s| && !IsUpper(s[i]) ==> r[i] == s[i]
    ensures forall i :: 0 <= i < |s| && IsUpper(s[i]) ==> 'a' <= r[i] <= 'z' && r[i] as int == s[i] as int + 32
  {
    seq(|s|, i requires 0 <= i < |s| => if IsUpper(s[i]) then (s[i] as int + 32) as char else s[i])
  }

  /** str.replace(" ", "_"). */
  function ReplaceSpaces(s: string): (r: string)
    ensures |r| == |s|
    ensures forall i :: 0 <= i < |s| ==> r[i] != ' '
    ensures forall i :: 0 <= i < |s| && s[i] != ' ' ==> r[i] == s[i]
    ensures forall i :: 0 <= i < |s| && s[i] == ' ' ==> r[i] == '_'
  {
    seq(|s|, i requires 0 <= i < |s| => if s[i] == ' ' then '_' else s[i])
  }

  /** A name with no upper-case letter and no space. */
  predicate IsNormal(s: string)
  {
    forall i :: 0 <= i < |s| ==> !IsUpper(s[i]) && s[i] != ' '
  }

  /** The normalisation main() applies to --board: lower-case, then spaces to underscores. */
  function Normalize(s: string): (r: string)
    ensures IsNormal(r)
    ensures |r| == |s|
    ensures forall i :: 0 <= i < |s| && IsUpper(s[i]) ==> 'a' <= r[i] <= 'z' && r[i] as int == s[i] as int + 32
    ensures forall i :: 0 <= i < |s| && s[i] == ' ' ==> r[i] == '_'
    ensures forall i :: 0 <= i < |s| && !IsUpper(s[i]) && s[i] != ' ' ==> r[i] == s[i]
  {
    ReplaceSpaces(LowerAscii(s))
  }

  /** A name is left alone by the normalisation exactly when it is already normal. */
  lemma NormalizeFixesExactlyNormal(s: string)
    ensures Normalize(s) == s <==> IsNormal(s)
  {
    if IsNormal(s) {
      assert Normalize(s) == s by {
        var l := LowerAscii(s);
        assert forall i :: 0 <= i < |s| ==> l[i] == s[i];
      }
    }
  }

  /** Normalising twice is normalising once. */
  lemma NormalizeIdempotent(s: string)
    ensures Normalize(Normalize(s)) == Normalize(s)
  {
    NormalizeFixesExactlyNormal(Normalize(s));
  }

  /** supported_boards[name]: the board with that key. */
  function Lookup(boards: seq<Board>, name: string): (r: Option<Board>)
    ensures r.None? <==> forall k :: 0 <= k < |boards| ==> boards[k].name != name
    ensures r.Some? ==> r.value in boards && r.value.name == name
  {
    if boards == [] then None
    else if boards[0].name == name then Some(boards[0])
    else Lookup(boards[1..], name)
  }

  datatype SelectError = UnknownBoard(name: string)  // KeyError from supported_boards[name]

  /**
   * The boards main() builds for a --board argument. "all" is compared
   * before normalising, so only the exact lower-case word selects every
   * board; any other argument selects the board whose key is its
   * normalisation, or fails with that key.
   */
  function SelectBoards(arg: string): (r: Result<seq<Board>, SelectError>)
    ensures arg == "all" ==> r == Success(SUPPORTED)
    ensures arg != "all" ==> (r.Success? <==> exists k :: 0 <= k < |SUPPORTED| && SUPPORTED[k].name == Normalize(arg))
    ensures arg != "all" && r.Success? ==> |r.value| == 1 && r.value[0] in SUPPORTED && r.value[0].name == Normalize(arg)
    ensures arg != "all" && r.Failure? ==> r.error == UnknownBoard(Normalize(arg))
  {
    if arg == "all" then Success(SUPPORTED)
    else
      var name := Normalize(arg);
      match Lookup(SUPPORTED, name)
      case Some(board) => Success([board])
      case None => Failure(UnknownBoard(name))
  }

  /** The supported_boards keys are distinct. */
  lemma NamesDistinct()
    ensures forall j, k :: 0 <= j < k < |SUPPORTED| ==> SUPPORTED[j].name != SUPPORTED[k].name
  {
  }

  /** The supported_boards keys are already normal, and none is "all". */
  lemma NamesNormal()
    ensures forall k :: 0 <= k < |SUPPORTED| ==> IsNormal(SUPPORTED[k].name) && SUPPORTED[k].name != "all"
  {
    forall k | 0 <= k < |SUPPORTED|
      ensures IsNormal(SUPPORTED[k].name) && SUPPORTED[k].name != "all"
    {
      if k < 9 {
        XilinxNameNormal(k);
      } else if k < 14 {
        LatticeNameNormal(k);
      } else {
        AlteraNameNormal(k);
      }
    }
  }

  /** The Xilinx keys, one by one. */
  lemma XilinxNameNormal(k: nat)
    requires k < 9
    ensures IsNormal(SUPPORTED[k].name) && SUPPORTED[k].name != "all"
  {
    var n := SUPPORTED[k].name;
    if k == 0 {
      assert n == "arty";
    } else if k == 1 {
      assert n == "netv2";
    } else if k == 2 {
      assert n == "genesys2";
    } else if k == 3 {
      assert n == "kc705";
    } else if k == 4 {
      assert n == "kcu105";
    } else if k == 5 {
      assert n == "nexys4ddr";
    } else if k == 6 {
      assert n == "nexys_video";
    } else if k == 7 {
      assert n == "minispartan6";
    } else {
      assert n == "pipistrello";
    }
  }

  /** The Lattice keys, one by one. */
  lemma LatticeNameNormal(k: nat)
    requires 9 <= k < 14
    ensures IsNormal(SUPPORTED[k].name) && SUPPORTED[k].name != "all"
  {
    var n := SUPPORTED[k].name;
    if k == 9 {
      assert n == "versa_ecp5";
    } else if k == 10 {
      assert n == "ulx3s";
    } else if k == 11 {
      assert n == "hadbadge";
    } else if k == 12 {
      assert n == "orangecrab";
    } else {
      assert n == "camlink_4k";
    }
  }

  /** The Altera/Intel keys, one by one. */
  lemma AlteraNameNormal(k: nat)
    requires 14 <= k < 17
    ensures IsNormal(SUPPORTED[k].name) && SUPPORTED[k].name != "all"
  {
    var n := SUPPORTED[k].name;
    if k == 14 {
      assert n == "de0nano";
    } else if k == 15 {
      assert n == "de10lite";
    } else {
      assert n == "de10nano";
    }
  }

  /** Every supported board is selected by its own key, and by nothing else. */
  lemma SelectsByOwnName(k: nat)
    requires k < |SUPPORTED|
    ensures SelectBoards(SUPPORTED[k].name) == Success([SUPPORTED[k]])
  {
    NamesDistinct();
    NamesNormal();
    NormalizeFixesExactlyNormal(SUPPORTED[k].name);
    var r := SelectBoards(SUPPORTED[k].name);
    assert r.value[0] == SUPPORTED[k];
  }

  /** Upper-case spellings of "all" are not the keyword: they normalise to a key that does not exist. */
  lemma AllIsCaseSensitive()
    ensures SelectBoards("ALL") == Failure(UnknownBoard("all"))
    ensures SelectBoards("All") == Failure(UnknownBoard("all"))
  {
    NamesNormal();
    assert Normalize("ALL") == "all";
    assert Normalize("All") == "all";
  }

  /** A spelling with capitals and a space selects the board it normalises to. */
  lemma SelectsNormalisedSpelling()
    ensures SelectBoards("Nexys Video") == Success([SUPPORTED[6]])
  {
    NamesDistinct();
    assert Normalize("Nexys Video") == "nexys_video" == SUPPORTED[6].name;
    var r := SelectBoards("Nexys Video");
    assert r.value[0] == SUPPORTED[6];
  }

  // ------------------------------------------------------------ SoC options

  /** soc_kwargs: integrated_rom_size, and toolchain, l2_size and uart_baudrate when they are set. */
  datatype SocOptions = SocOptions(integratedRomSize: nat, toolchain: Option<string>, l2Size: Option<nat>, uartBaudrate: Option<nat>)

  const TRELLIS_BOARDS: seq<string> := ["versa_ecp5", "ulx3s", "hadbadge", "orangecrab"]

  /**
   * The keyword options main() passes for a board: a 32 KiB integrated ROM
   * always; the open-source trellis toolchain for four ECP5 boards; a 2048
   * byte L2 cache on the de0nano; 500000 baud on the kc705.
   */
  function SocKwargs(name: string): (o: SocOptions)
    ensures o.integratedRomSize == 0x8000
    ensures o.toolchain.Some? <==> name in TRELLIS_BOARDS
    ensures o.toolchain.Some? ==> o.toolchain.value == "trellis"
    ensures o.l2Size == (if name == "de0nano" then Some(2048) else None)
    ensures o.uartBaudrate == (if name == "kc705" then Some(500000) else None)
  {
    SocOptions(
      0x8000,
      if name in TRELLIS_BOARDS then Some("trellis") else None,
      if name in ["de0nano"] then Some(2048) else None,
      if name in ["kc705"] then Some(500000) else None)
  }

  /**
   * Over the supported boards: trellis is chosen only for Lattice boards,
   * though not for every one (camlink_4k keeps the default); the L2 size is
   * changed only on an Altera board and the baud rate only on a Xilinx one;
   * and no board has more than one option added.
   */
  lemma SocKwargsByFamily()
    ensures forall k :: 0 <= k < |SUPPORTED| && SocKwargs(SUPPORTED[k].name).toolchain.Some? ==> SUPPORTED[k].family == Lattice
    ensures forall k :: 0 <= k < |SUPPORTED| && SocKwargs(SUPPORTED[k].name).l2Size.Some? ==> SUPPORTED[k].family == Altera
    ensures forall k :: 0 <= k < |SUPPORTED| && SocKwargs(SUPPORTED[k].name).uartBaudrate.Some? ==> SUPPORTED[k].family == Xilinx
    ensures SUPPORTED[13].name == "camlink_4k" && SUPPORTED[13].family == Lattice && SocKwargs(SUPPORTED[13].name).toolchain.None?
    ensures forall name ::
      var o := SocKwargs(name);
      (if o.toolchain.Some? then 1 else 0) + (if o.l2Size.Some? then 1 else 0) + (if o.uartBaudrate.Some? then 1 else 0) <= 1
  {
    forall k | 0 <= k < |SUPPORTED| && SocKwargs(SUPPORTED[k].name).toolchain.Some?
      ensures SUPPORTED[k].family == Lattice
    {
      TrellisNames(k);
    }
  }

  lemma TrellisNames(k: nat)
    requires k < |SUPPORTED| && SUPPORTED[k].name in TRELLIS_BOARDS
    ensures SUPPORTED[k].family == Lattice
  {
    assert SUPPORTED[9].name == TRELLIS_BOARDS[0];
    assert SUPPORTED[10].name == TRELLIS_BOARDS[1];
    assert SUPPORTED[11].name == TRELLIS_BOARDS[2];
    assert SUPPORTED[12].name == TRELLIS_BOARDS[3];
  }

  // ------------------------------------------------------- SPI flash setup

  datatype SetupError =
    | MissingAttribute(board: string)  // AttributeError: a spiflash board without SPIFLASH_* attributes
    | InvalidOffset(text: string)      // ValueError from int(offset, 16)

  /** The <NAME>_FLASH_OFFSET constants: one per region, in order, each the region's offset parsed as hex. */
  function OffsetConstants(regions: seq<Region>): (r: Result<seq<(string, nat)>, SetupError>)
    ensures r.Success? <==> AllParse(regions)
    ensures r.Success? ==> |r.value| == |regions|
    ensures r.Success? ==> forall k :: 0 <= k < |regions| ==>
      r.value[k] == (regions[k].name + "_FLASH_OFFSET", ParseHex(regions[k].offset).value)
  {
    if regions == [] then Success([])
    else
      match ParseHex(regions[0].offset)
      case None => Failure(InvalidOffset(regions[0].offset))
      case Some(offset) =>
        match OffsetConstants(regions[1..])
        case Failure(e) =>
          assert !AllParse(regions) by {
            var k :| 0 <= k < |regions[1..]| && ParseHex(regions[1..][k].offset).None?;
            assert regions[1..][k] == regions[k + 1];
          }
          Failure(e)
        case Success(rest) =>
          assert forall k :: 0 < k < |regions| ==> regions[k] == regions[1..][k - 1];
          Success([(regions[0].name + "_FLASH_OFFSET", offset)] + rest)
  }

  /**
   * The flash offset the BIOS is given for each region is the address the
   * region was flashed at plus 0x200000: the two tables agree.
   */
  lemma {:induction false} OffsetsMatchFlashedAddresses(regions: seq<Region>)
    requires DistinctFiles(regions) && AllParse(regions)
    ensures ShiftRegions([], regions).Success? && OffsetConstants(regions).Success?
    ensures |ShiftRegions([], regions).value| == |regions|
    ensures forall k :: 0 <= k < |regions| ==>
      OffsetConstants(regions).value[k].1 == ShiftRegions([], regions).value[k].1 + DFU_BASE
  {
    ShiftRegionsDistinct([], regions);
    assert [] + Shifted(regions) == Shifted(regions);
    ShiftedAddresses(regions);
  }

  /** Each shifted address is the parsed offset less the DFU base. */
  lemma ShiftedAddresses(regions: seq<Region>)
    requires AllParse(regions)
    ensures |Shifted(regions)| == |regions|
    ensures forall k :: 0 <= k < |regions| ==> Shifted(regions)[k].1 + DFU_BASE == ParseHex(regions[k].offset).value
  {
  }

  /** What main() adds for a spiflash board: the dummy cycles and the named constants. */
  datatype FlashConfig = FlashConfig(dummyCycles: nat, constants: seq<(string, nat)>)

  /**
   * The SPI flash part of main() for one board: nothing without the
   * spiflash capability; otherwise the dummy cycles, the page and sector
   * sizes, and the flash-offset constants of its regions.
   */
  function FlashSetup(b: Board): (r: Result<Option<FlashConfig>, SetupError>)
    ensures r.Success? && r.value.Some? <==> "spiflash" in b.capabilities && b.spiflash.Some? && AllParse(b.flashRegions)
    ensures r.Success? && r.value.Some? ==>
      && |r.value.value.constants| == 2 + |b.flashRegions|
      && r.value.value.dummyCycles == b.spiflash.value.dummyCycles
      && r.value.value.constants[..2] == [("SPIFLASH_PAGE_SIZE", b.spiflash.value.pageSize), ("SPIFLASH_SECTOR_SIZE", b.spiflash.value.sectorSize)]
      && r.value.value.constants[2..] == OffsetConstants(b.flashRegions).value
  {
    if "spiflash" !in b.capabilities then Success(None)
    else if b.spiflash.None? then Failure(MissingAttribute(b.name))
    else
      match OffsetConstants(b.flashRegions)
      case Failure(e) => Failure(e)
      case Success(offsets) =>
        var geometry := [("SPIFLASH_PAGE_SIZE", b.spiflash.value.pageSize), ("SPIFLASH_SECTOR_SIZE", b.spiflash.value.sectorSize)];
        assert (geometry + offsets)[..2] == geometry;
        Success(Some(FlashConfig(b.spiflash.value.dummyCycles, geometry + offsets)))
  }

  /** Every supported board with the spiflash capability declares its flash geometry, so none fails. */
  lemma EveryBoardSetsUpFlash(k: nat)
    requires k < |SUPPORTED|
    ensures FlashSetup(SUPPORTED[k]).Success?
    ensures FlashSetup(SUPPORTED[k]).value.Some? <==> "spiflash" in SUPPORTED[k].capabilities
  {
    if k == HADBADGE {
      HadBadgeShifted();
    } else {
      assert SUPPORTED[k].flashRegions == [];
    }
  }

  const HADBADGE_OFFSETS: seq<(string, nat)> := [
    ("KERNEL_IMAGE_FLASH_OFFSET", 0x400000),
    ("ROOTFS_IMAGE_FLASH_OFFSET", 0x880000),
    ("DEVICE_TREE_IMAGE_FLASH_OFFSET", 0xf00000),
    ("EMULATOR_IMAGE_FLASH_OFFSET", 0xf01000)
  ]

  lemma HadBadgeOffsetNames()
    ensures forall k :: 0 <= k < 4 ==> FLASH_REGIONS[k].name + "_FLASH_OFFSET" == HADBADGE_OFFSETS[k].0
  {
    assert FLASH_REGIONS[0].name + "_FLASH_OFFSET" == HADBADGE_OFFSETS[0].0;
    assert FLASH_REGIONS[1].name + "_FLASH_OFFSET" == HADBADGE_OFFSETS[1].0;
    assert FLASH_REGIONS[2].name + "_FLASH_OFFSET" == HADBADGE_OFFSETS[2].0;
    assert FLASH_REGIONS[3].name + "_FLASH_OFFSET" == HADBADGE_OFFSETS[3].0;
  }

  lemma HadBadgeOffsetValues()
    ensures forall k :: 0 <= k < 4 ==> ParseHex(FLASH_REGIONS[k].offset) == Some(HADBADGE_OFFSETS[k].1)
  {
    forall k | 0 <= k < 4
      ensures ParseHex(FLASH_REGIONS[k].offset) == Some(HADBADGE_OFFSETS[k].1)
    {
      RegionOffset(k);
    }
  }

  /** The HADBadge flash-offset constants, one per region of FLASH_REGIONS. */
  lemma HadBadgeOffsets()
    ensures OffsetConstants(FLASH_REGIONS) == Success(HADBADGE_OFFSETS)
  {
    HadBadgeOffsetNames();
    HadBadgeOffsetValues();
    assert AllParse(FLASH_REGIONS);
    var offsets := OffsetConstants(FLASH_REGIONS).value;
    assert forall k :: 0 <= k < 4 ==> offsets[k] == HADBADGE_OFFSETS[k];
    assert offsets == HADBADGE_OFFSETS;
  }

  /** flash setup on a board with a SPI flash whose regions all parse: its geometry, then its offset constants. */
  lemma FlashSetupValue(b: Board, geometry: Spiflash, offsets: seq<(string, nat)>)
    requires "spiflash" in b.capabilities && b.spiflash == Some(geometry)
    requires OffsetConstants(b.flashRegions) == Success(offsets)
    ensures FlashSetup(b) == Success(Some(FlashConfig(geometry.dummyCycles,
      [("SPIFLASH_PAGE_SIZE", geometry.pageSize), ("SPIFLASH_SECTOR_SIZE", geometry.sectorSize)] + offsets)))
  {
  }

  /** The hadbadge entry of supported_boards. */
  lemma HadBadgeEntry()
    ensures SUPPORTED[HADBADGE].spiflash == Some(Spiflash(256, 65536, 6))
    ensures SUPPORTED[HADBADGE].flashRegions == FLASH_REGIONS
    ensures "spiflash" in SUPPORTED[HADBADGE].capabilities
  {
  }

  /** The HADBadge gets 6 dummy cycles, 256-byte pages, 64 KiB sectors and the four region offsets. */
  lemma HadBadgeFlashConstants()
    ensures FlashSetup(SUPPORTED[HADBADGE]) == Success(Some(FlashConfig(6,
      [("SPIFLASH_PAGE_SIZE", 256), ("SPIFLASH_SECTOR_SIZE", 65536)] + HADBADGE_OFFSETS)))
  {
    HadBadgeOffsets();
    HadBadgeEntry();
    FlashSetupValue(SUPPORTED[HADBADGE], Spiflash(256, 65536, 6), HADBADGE_OFFSETS);
  }
}
