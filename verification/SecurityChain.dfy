/** The security lists from the register lists of the build to the host's decision. */
module SecurityChain {
  import opened Bytes
  import MemAccess
  import opened SecurityTables
  import opened SecurityGen
  import opened SecurityCounts
  import opened SecurityDump

  /** What the register lists ask for. */
  ghost predicate Wanted(white: set<u32>, black: set<u32>, grey: seq<Grey>, a: u32, mask: u64, access: AccessType) {
    match access
    case Write => a in white || (mask != 0xFFFF_FFFF_FFFF_FFFF && GreyHolds(grey, a, mask))
    case Read => a !in black
  }

  /** The lists the build makes, if the running counts fit. */
  method BuildLists(white: set<u32>, black: set<u32>, grey: seq<Grey>) returns (built: bool, l: Lists)
    requires |grey| < 0x1_0000
    ensures built <==> Fitting(white) && Fitting(black)
    ensures built ==> SizesFit(l) && WellFormedLists(l)
    ensures built ==> forall a, mask, access :: Permitted(l, a, mask, access) <==> Wanted(white, black, grey, a, mask, access)
  {
    var w := GetTables(white);
    var b := GetTables(black);
    built, l := w.Generated? && b.Generated?, Lists(Tables([], [], []), Tables([], [], []), grey);
    if built {
      l := Lists(w.tables, b.tables, grey);
    }
  }

  /** Register lists, generator, dump, memory, loader: the host decides every access as the
      register lists ask, and as the firmware does. */
  method HostVerdict(white: set<u32>, black: set<u32>, grey: seq<Grey>, m: MemAccess.Interface, loader: Loader, spare: nat,
                     a: u32, mask: u64, access: AccessType) returns (built: bool, host: bool, firmware: bool)
    requires |grey| < 0x1_0000
    requires m.Valid() && !m.reading && m.log == [] && m.depth == 0 && !m.Failing() && !loader.initDone
    modifies m, m.buffer, loader
    ensures built <==> Fitting(white) && Fitting(black)
    ensures built ==> host == firmware && (host <==> Wanted(white, black, grey, a, mask, access))
  {
    var l;
    built, l := BuildLists(white, black, grey);
    host, firmware := false, false;
    if built {
      HandOver(m, l, loader, |Dump(l)| + spare);
      host := loader.IsAccessAllowed(a, mask, access);
      firmware := IsAllowed(l, a, mask, access, true);
    }
  }
}
