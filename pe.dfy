/** The PE header reader (ffpe_read): a state machine that walks an
    executable in the layout of the Microsoft PE/COFF specification — the
    MS-DOS header, the COFF file header, the optional header with its data
    directories, the section table and the import directory — and reports
    each part to the caller. Input arrives in pieces; the reader gathers
    the bytes of each structure, asks the caller to seek when the next
    structure lies elsewhere in the file, and keeps the file offset of
    its input in off.

    The phase functions are one pass of the C switch each, Step picks the
    pass, Run is one call; class Reader holds the fields and its Read
    method is proved to end in the state and result Run gives. */
module Pe {
  import opened Bytes

  /** Error codes (enum PE_E). */
  const EOk: int := 0
  const ESys: int := 1
  const ESig: int := 2
  const EFlag: int := 3
  const EOhdr: int := 4
  const EMagic: int := 5
  const ELarge: int := 6
  const ESmall: int := 7
  const ERva: int := 8

  /** Results (enum FFPE_R). */
  const RErr: int := 0
  const RMore: int := 1
  const RSeek: int := 2
  const RHdr: int := 3
  const RDd: int := 4
  const RSect: int := 5
  const RImpDir: int := 6
  const RImport: int := 7
  const RDone: int := 8

  /** Structure sizes (misc/pe-fmt.h). */
  const DosHdr: nat := 64
  const PeOff: nat := 60
  const SigCoff: nat := 24
  const OptStd: nat := 24
  const OptStd32: nat := 28
  const Win32: nat := 68
  const Win64: nat := 88
  const DirSize: nat := 8
  const SectHdr: nat := 40
  const ImpDirSize: nat := 20
  const SectTableMax: nat := 64 * 1024

  const U32: int := 0x1_0000_0000

  /** ffpe_errstr: the message of p->err; ESYS takes the system's message
      for the last error, which is sysMsg here. */
  function ErrStr(err: int, sysMsg: string): (s: string)
    ensures err == ESys ==> s == sysMsg
    ensures err != ESys && (err < 0 || err >= 9) ==> s == ""
    ensures err == ESig ==> s == "bad signature"
    ensures err == ELarge ==> s == "value is too large"
  {
    if err == ESys then sysMsg
    else if err < 0 || err >= 9 then ""
    else ["", "", "bad signature", "bad flags", "bad optional header", "bad magic code",
          "value is too large", "not enough data", "bad RVA"][err]
  }

  /** Every error the reader stores has a message of its own. */
  lemma ErrStrNamesReaderErrors(err: int, sysMsg: string)
    requires err in {ESig, EFlag, EOhdr, EMagic, ELarge}
    ensures ErrStr(err, sysMsg) != ""
    ensures forall e :: e in {ESig, EFlag, EOhdr, EMagic, ELarge} && e != err
                        ==> ErrStr(e, sysMsg) != ErrStr(err, sysMsg)
  {
  }

  // ---------------------------------------------------------------- records

  /** One data-directory entry (struct ffpe_data_dir). */
  datatype DataDir = DataDir(vaddr: u32, vsize: u32)

  /** One section (struct ffpe_sect); name is the 8-byte name field. */
  datatype Sect = Sect(name: seq<byte>, vaddr: u32, vsize: u32, rawOff: u32, rawSize: u32, flags: u32)

  /** struct ffpe_info. */
  datatype Info = Info(machine: u16, sections: u16, tmCreated: u32, linkerVer0: byte, linkerVer1: byte,
                       codeSize: u32, initDataSize: u32, uninitDataSize: u32, entryAddr: u32,
                       stackSizeRes: u64, stackSizeCommit: u64, pe32plus: bool)

  function Info0(): Info
  {
    Info(0, 0, 0, 0, 0, 0, 0, 0, 0, 0, 0, false)
  }

  /** The data-directory entry at offset i. */
  function DirAt(d: seq<byte>, i: nat): DataDir
    requires i + DirSize <= |d|
  {
    DataDir(Le32(d, i), Le32(d, i + 4))
  }

  /** The section header at the start of h (struct coff_sect_hdr). */
  function SectAt(h: seq<byte>): Sect
    requires |h| >= SectHdr
  {
    Sect(h[..8], Le32(h, 12), Le32(h, 8), Le32(h, 20), Le32(h, 16), Le32(h, 36))
  }

  /** Every entry of a data-directory array, in order. */
  function Dirs(d: seq<byte>): (r: seq<DataDir>)
    decreases |d|
    ensures |r| == |d| / DirSize
  {
    if |d| < DirSize then [] else [DirAt(d, 0)] + Dirs(d[DirSize..])
  }

  /** Every header of a section table, in order. */
  function Sects(d: seq<byte>): (r: seq<Sect>)
    decreases |d|
    ensures |r| == |d| / SectHdr
  {
    if |d| < SectHdr then [] else [SectAt(d)] + Sects(d[SectHdr..])
  }

  // ---------------------------------------------------------------- real_offset

  /** Does the section hold virtual address vaddr? The end address is a
      32-bit sum, as in the C. */
  predicate InSect(s: Sect, vaddr: u32)
  {
    s.vaddr <= vaddr && vaddr < (s.vaddr + s.vsize) % U32
  }

  /** real_offset: the file offset of vaddr through the first section that
      holds it, or -1; the offset is a 32-bit sum, as in the C. */
  function RealOffset(ss: seq<Sect>, vaddr: u32): (r: int)
    decreases |ss|
    ensures r == -1 || 0 <= r < U32
  {
    if ss == [] then -1
    else if InSect(ss[0], vaddr) then
      (if ss[0].vsize > ss[0].rawSize then -1 else (ss[0].rawOff + vaddr - ss[0].vaddr) % U32)
    else RealOffset(ss[1..], vaddr)
  }

  /** The first section holding vaddr decides the result. */
  lemma {:induction false} RealOffsetFirst(ss: seq<Sect>, vaddr: u32, i: nat)
    requires i < |ss| && InSect(ss[i], vaddr)
    requires forall j :: 0 <= j < i ==> !InSect(ss[j], vaddr)
    ensures RealOffset(ss, vaddr)
            == if ss[i].vsize > ss[i].rawSize then -1 else (ss[i].rawOff + vaddr - ss[i].vaddr) % U32
  {
    if i > 0 {
      assert !InSect(ss[0], vaddr);
      assert forall j :: 0 <= j < i - 1 ==> ss[1..][j] == ss[j + 1];
      RealOffsetFirst(ss[1..], vaddr, i - 1);
    }
  }

  /** No section holds vaddr: -1. */
  lemma {:induction false} RealOffsetNone(ss: seq<Sect>, vaddr: u32)
    requires forall j :: 0 <= j < |ss| ==> !InSect(ss[j], vaddr)
    ensures RealOffset(ss, vaddr) == -1
  {
    if ss != [] {
      assert !InSect(ss[0], vaddr);
      assert forall j :: 0 <= j < |ss| - 1 ==> ss[1..][j] == ss[j + 1];
      RealOffsetNone(ss[1..], vaddr);
    }
  }

  /** real_offset as the C runs it: a loop over the section list. */
  method RealOffsetScan(ss: seq<Sect>, vaddr: u32) returns (r: int)
    ensures r == RealOffset(ss, vaddr)
  {
    var i := 0;
    while i < |ss|
      invariant i <= |ss|
      invariant RealOffset(ss[i..], vaddr) == RealOffset(ss, vaddr)
      decreases |ss| - i
    {
      assert ss[i..][1..] == ss[i + 1..];
      var s := ss[i];
      if InSect(s, vaddr) {
        if s.vsize > s.rawSize {
          return -1;
        }
        return (s.rawOff + vaddr - s.vaddr) % U32;
      }
      i := i + 1;
    }
    return -1;
  }

  /** The file offset the reader stores: real_offset's int result kept in
      the 32-bit field, so -1 becomes 0xffffffff. */
  function OffsetOf(r: int): u32
    requires r == -1 || 0 <= r < U32
  {
    if r < 0 then U32 - 1 else r
  }

  /** The reader rejects an offset that is negative as a 32-bit int. */
  predicate NegativeOffset(off: u32)
  {
    off >= 0x8000_0000
  }

  // ---------------------------------------------------------------- gather

  /** The gather contract (ffstr_gather is not part of this model): take
      from the input what is still missing of need bytes; the structure is
      ready when buf holds all of it. */
  datatype Gathered = Gathered(n: nat, buf: seq<byte>, dat: seq<byte>)

  function Gather(buf: seq<byte>, inp: seq<byte>, need: nat): (g: Gathered)
    requires |buf| <= need
    ensures g.n <= |inp| && |g.buf| <= need && g.buf == buf + inp[..g.n]
    ensures g.dat != [] <==> need > 0 && |buf| + |inp| >= need
    ensures g.dat != [] ==> g.dat == buf + inp[..need - |buf|] && |g.dat| == need
    ensures g.dat == [] && need > 0 ==> g.n == |inp|
  {
    var n := Min(|inp|, need - |buf|);
    var b := buf + inp[..n];
    Gathered(n, b, if |b| == need then b else [])
  }

  // ---------------------------------------------------------------- headers

  /** What pe_coffhdr reports: 0 or an error code, the info it leaves, and
      the optional-header size to gather next. */
  datatype CoffOut = CoffOut(code: int, info: Info, ohsz: nat)

  /** pe_coffhdr on the 4-byte signature and 20-byte COFF header. */
  function CoffHdr(d: seq<byte>, info: Info): (o: CoffOut)
    requires |d| >= SigCoff
    ensures o.code == ESig <==> d[..4] != [0x50, 0x45, 0, 0]
    ensures o.code == EFlag <==> d[..4] == [0x50, 0x45, 0, 0] && (Le16(d, 22) / 2) % 2 == 0
    ensures o.code == 0 || o.code == ESig || o.code == EFlag || o.code == EOhdr
    ensures o.code == 0 || o.code == EOhdr ==>
              o.info == info.(machine := Le16(d, 4), tmCreated := Le32(d, 8), sections := Le16(d, 6))
              && o.ohsz == Le16(d, 20) && (o.code == EOhdr <==> o.ohsz == 0)
    ensures o.code == ESig || o.code == EFlag ==> o.info == info
  {
    if d[..4] != [0x50, 0x45, 0, 0] then CoffOut(ESig, info, 0)
    else if (Le16(d, 22) / 2) % 2 == 0 then CoffOut(EFlag, info, 0)
    else
      var i := info.(machine := Le16(d, 4), tmCreated := Le32(d, 8), sections := Le16(d, 6));
      var ohsz := Le16(d, 20);
      CoffOut(if ohsz == 0 then EOhdr else 0, i, ohsz)
  }

  /** What pe_opthdr reports: 0 or an error code, the info it leaves, the
      export and import directories, and the data-directory array. */
  datatype OptOut = OptOut(code: int, info: Info, edata: Option<DataDir>, idata: Option<DataDir>,
                           dd: seq<byte>)

  /** Where the windows fields end for each magic: the data directories
      start there. */
  function DirsOff(magic: nat): nat
  {
    if magic == 0x010b then OptStd32 + Win32 else OptStd + Win64
  }

  /** The guard the C applies before reading the windows fields: PE32
      checks only for the 28 standard bytes, PE32+ for nothing beyond the
      24 already checked. */
  predicate WinGuardAsWritten(len: nat, magic: nat)
  {
    magic == 0x010b ==> len >= OptStd32
  }

  /** The room the C computes for the data directories: the distance from
      their start to the end of the header as a 64-bit size, which wraps
      when they start past the end. */
  function DirRoomAsWritten(len: nat, off: nat): nat
  {
    (len - off) % 0x1_0000_0000_0000_0000
  }

  /** A PE32 optional header of 28 bytes passes the C's guard, though its
      windows fields, data_dir_entries at bytes 92..96 among them, lie past
      its end; the room computed for the data directories then wraps to
      nearly 2^64, so any entry count of 2 or more passes too. A PE32+
      header of 24 bytes likewise passes with its windows fields at 24..112.
      The corrected reader rejects both with EOHDR. */
  lemma WinOverrunAsWritten(d: seq<byte>, info: Info)
    requires |d| == OptStd32 && Le16(d, 0) == 0x010b
    ensures WinGuardAsWritten(|d|, 0x010b) && 92 + 4 > |d|
    ensures DirRoomAsWritten(|d|, DirsOff(0x010b)) >= 2 * DirSize
    ensures WinGuardAsWritten(OptStd, 0x020b) && 108 + 4 > OptStd
    ensures OptHdr(d, info).code == EOhdr
  {
  }

  /** pe_opthdr with the windows fields bounds-checked: a header too short
      for them gives EOHDR. */
  function OptHdr(d: seq<byte>, info: Info): (o: OptOut)
    ensures |d| < OptStd ==> o == OptOut(ELarge, info, None, None, [])
    ensures o.code == 0 || o.code == ELarge || o.code == EOhdr || o.code == EMagic
    ensures |d| >= OptStd && Le16(d, 0) != 0x010b && Le16(d, 0) != 0x020b ==> o.code == EMagic
    ensures o.code == 0 ==> Le16(d, 0) in {0x010b, 0x020b}
                            && o.info.pe32plus == (Le16(d, 0) == 0x020b || info.pe32plus)
    ensures o.code == 0 <==> o.edata.Some? && o.idata.Some?
    ensures o.code == 0 ==> var off := DirsOff(Le16(d, 0));
                            off + |o.dd| <= |d| && |o.dd| >= 2 * DirSize && |o.dd| % DirSize == 0
                            && o.dd == d[off..off + |o.dd|]
                            && o.edata.value == DirAt(d, off) && o.idata.value == DirAt(d, off + DirSize)
  {
    if |d| < OptStd then OptOut(ELarge, info, None, None, [])
    else
      var i1 := info.(linkerVer0 := d[2], linkerVer1 := d[3], codeSize := Le32(d, 4),
                      initDataSize := Le32(d, 8), uninitDataSize := Le32(d, 12), entryAddr := Le32(d, 16));
      var m := Le16(d, 0);
      if m != 0x010b && m != 0x020b then OptOut(EMagic, i1, None, None, [])
      else
        var i2 := if m == 0x020b then i1.(pe32plus := true) else i1;
        var off := DirsOff(m);
        if |d| < off then OptOut(EOhdr, i2, None, None, [])
        else
          var i3 := if m == 0x010b then i2.(stackSizeRes := Le32(d, 72), stackSizeCommit := Le32(d, 76))
                    else i2.(stackSizeRes := Le64(d, 72), stackSizeCommit := Le64(d, 80));
          OptDirs(d, i3, off)
  }

  /** The end of pe_opthdr: the data-directory count sits just before the
      array at off; there must be room for that many and at least two. */
  function OptDirs(d: seq<byte>, info: Info, off: nat): (o: OptOut)
    requires 4 <= off <= |d|
    ensures o.code == 0 || o.code == EOhdr
    ensures o.info == info
    ensures o.code == 0 <==> o.edata.Some? && o.idata.Some?
    ensures o.code == 0 ==> off + |o.dd| <= |d| && |o.dd| >= 2 * DirSize && |o.dd| % DirSize == 0
                            && o.dd == d[off..off + |o.dd|]
                            && o.edata.value == DirAt(d, off) && o.idata.value == DirAt(d, off + DirSize)
  {
    var count := Le32(d, off - 4);
    if count * DirSize > |d| - off || count < 2 then OptOut(EOhdr, info, None, None, [])
    else OptOut(0, info, Some(DirAt(d, off)), Some(DirAt(d, off + DirSize)),
                d[off..off + count * DirSize])
  }

  // ---------------------------------------------------------------- import directory

  /** Is the import directory entry at the start of d the null entry: both
      the lookup-table RVA and the address-table RVA zero? */
  predicate NullImport(d: seq<byte>)
    requires |d| >= ImpDirSize
  {
    Le32(d, 0) == 0 && Le32(d, 16) == 0
  }

  /** The number of entries before the first null entry, counting only
      entries that fit in d. */
  function ImportEntries(d: seq<byte>): (k: nat)
    decreases |d|
    ensures k * ImpDirSize <= |d|
  {
    if |d| < ImpDirSize || NullImport(d) then 0 else 1 + ImportEntries(d[ImpDirSize..])
  }

  /** The entries counted are the non-null ones before the end or the
      first null entry. */
  lemma {:induction false} ImportEntriesSpec(d: seq<byte>)
    decreases |d|
    ensures forall i :: 0 <= i < ImportEntries(d) ==> !NullImport(d[i * ImpDirSize..])
    ensures var k := ImportEntries(d);
            (k + 1) * ImpDirSize > |d| || NullImport(d[k * ImpDirSize..])
  {
    if |d| >= ImpDirSize && !NullImport(d) {
      var t := d[ImpDirSize..];
      ImportEntriesSpec(t);
      forall i | 1 <= i < ImportEntries(d)
        ensures d[i * ImpDirSize..] == t[(i - 1) * ImpDirSize..]
      {
      }
      assert d[ImportEntries(d) * ImpDirSize..] == t[ImportEntries(t) * ImpDirSize..];
    }
  }

  /** The import loop's condition as written: it compares the address
      after the current entry (base + 20 (k + 1)) with the data length, as
      if the length were an address. */
  predicate ImportLoopRunsAsWritten(base: nat, len: nat, k: nat)
  {
    base + (k + 1) * ImpDirSize != len
  }

  /** The import loop as written, over the memory mem that starts at the
      data (len bytes of it are data; the rest is whatever follows the
      buffer): the offsets of the entries it reads, from entry k on, for at
      most fuel iterations. It stops when its condition fails, at a null
      entry, or where mem is unknown. */
  function ImportReadsAsWritten(base: nat, len: nat, mem: seq<byte>, k: nat, fuel: nat): seq<nat>
    decreases fuel
  {
    if fuel == 0 || !ImportLoopRunsAsWritten(base, len, k) || |mem| < (k + 1) * ImpDirSize then []
    else if NullImport(mem[k * ImpDirSize..]) then [k * ImpDirSize]
    else [k * ImpDirSize] + ImportReadsAsWritten(base, len, mem, k + 1, fuel - 1)
  }

  /** At a buffer address no smaller than the data length, the loop as
      written never meets its exit test; when no entry that fits in the
      data is null, it goes on to read an entry that does not fit in the
      data, at most one entry's worth of memory past its end. */
  lemma {:induction false} ImportWalkOverruns(base: nat, d: seq<byte>, after: seq<byte>, k: nat, fuel: nat)
    requires base >= |d| && |after| >= ImpDirSize && k * ImpDirSize <= |d|
    requires forall j :: k <= j && (j + 1) * ImpDirSize <= |d| ==> !NullImport((d + after)[j * ImpDirSize..])
    requires fuel * ImpDirSize > |d| - k * ImpDirSize
    decreases fuel
    ensures exists o :: o in ImportReadsAsWritten(base, |d|, d + after, k, fuel) && o + ImpDirSize > |d|
  {
    var mem := d + after;
    assert ImportLoopRunsAsWritten(base, |d|, k);
    var o := k * ImpDirSize;
    if (k + 1) * ImpDirSize > |d| {
      assert o in ImportReadsAsWritten(base, |d|, mem, k, fuel);
    } else {
      assert !NullImport(mem[o..]);
      ImportWalkOverruns(base, d, after, k + 1, fuel - 1);
      var o' :| o' in ImportReadsAsWritten(base, |d|, mem, k + 1, fuel - 1) && o' + ImpDirSize > |d|;
      assert o' in ImportReadsAsWritten(base, |d|, mem, k, fuel);
    }
  }

  /** For 20 bytes holding one non-null entry and no terminator, at any
      buffer address of at least 20 the loop as written reads a second
      entry, from 20 bytes past the data's start, wholly past the data; the
      corrected walk stops at the end with one entry. */
  lemma ImportOverrunAsWritten(base: nat, d: seq<byte>, after: seq<byte>)
    requires base >= |d| && |d| == ImpDirSize && !NullImport(d) && |after| >= ImpDirSize
    ensures ImpDirSize in ImportReadsAsWritten(base, |d|, d + after, 0, 2)
    ensures ImportEntries(d) == 1
  {
    assert (d + after)[0..] == d + after;
    assert (d + after)[..ImpDirSize] == d;
    ImportWalkOverruns(base, d, after, 0, 2);
    assert d[ImpDirSize..] == [];
  }

  /** The corrected import loop: walk the entries that fit, up to the
      first null entry. */
  method ImportScan(d: seq<byte>) returns (k: nat)
    ensures k == ImportEntries(d)
  {
    k := 0;
    var rest := d;
    while |rest| >= ImpDirSize && !NullImport(rest)
      invariant k * ImpDirSize + |rest| == |d| && rest == d[k * ImpDirSize..]
      invariant k + ImportEntries(rest) == ImportEntries(d)
      decreases |rest|
    {
      assert rest[ImpDirSize..] == d[(k + 1) * ImpDirSize..];
      rest := rest[ImpDirSize..];
      k := k + 1;
    }
  }

  // ---------------------------------------------------------------- the machine

  /** The reader's states (enum R). */
  datatype St = Init | Hdr | PeSig | OptHdrSt | DD | SectGather | SectSt | Sect2 | GatherSt
              | IDataSeek | IDataCopy | IData | EDataSeek | EData

  /** The fields of struct ffpe the reader uses. dd is the remaining part
      of the data-directory array (p->dd up to p->dd_end); buf the bytes
      gathered so far; dat the structure being read. */
  datatype PeState = PeState(state: St, next: St, err: int, gatherSize: nat, dd: seq<byte>,
                             sections: seq<Sect>, impDir: seq<byte>, idata: DataDir, edata: DataDir,
                             buf: seq<byte>, dat: seq<byte>, inp: seq<byte>, off: u32, info: Info,
                             dataDir: DataDir, section: Sect)

  /** A zero-filled struct ffpe. */
  function Init0(): PeState
  {
    PeState(Init, Init, 0, 0, [], [], [], DataDir(0, 0), DataDir(0, 0), [], [], [], 0, Info0(),
            DataDir(0, 0), Sect([], 0, 0, 0, 0, 0))
  }

  /** What the reader keeps true between passes: each gather is for the
      size its next state reads, and the views the C walks with pointers
      hold whole entries. */
  predicate Valid(t: PeState)
  {
    && |t.buf| <= t.gatherSize
    && (t.state != GatherSt ==> t.buf == [])
    && (t.next == Hdr ==> t.gatherSize == DosHdr)
    && (t.next == PeSig ==> t.gatherSize == SigCoff)
    && (t.next == SectSt ==> t.gatherSize % SectHdr == 0)
    && (t.state == GatherSt ==> t.next in {Hdr, PeSig, OptHdrSt, SectSt, IDataCopy, EData})
    && (t.state == Hdr ==> |t.dat| == DosHdr)
    && (t.state == PeSig ==> |t.dat| == SigCoff)
    && (t.state == SectSt ==> |t.dat| % SectHdr == 0)
    && (t.state == Sect2 ==> |t.dat| % SectHdr == 0 && |t.dat| >= SectHdr)
    && |t.dd| % DirSize == 0
  }

  /** How far the machine may still go without returning. */
  function Rank(s: St): nat
  {
    match s
    case EData => 0
    case Hdr => 0
    case OptHdrSt => 0
    case EDataSeek => 1
    case IData => 2
    case IDataSeek => 2
    case PeSig => 2
    case Init => 2
    case IDataCopy => 3
    case SectSt => 3
    case Sect2 => 3
    case SectGather => 5
    case DD => 6
    case GatherSt => 3
  }

  function Measure(t: PeState): nat
  {
    if t.state == GatherSt then Rank(t.next) + 1 else Rank(t.state)
  }

  /** The state after one pass; stop says whether the call returns r. */
  datatype PeOut = PeOut(t: PeState, stop: bool, r: int)

  /** The GATHER macro: gather size bytes, then go to next. */
  function StartGather(t: PeState, next: St, size: nat): PeState
  {
    t.(next := next, gatherSize := size, state := GatherSt)
  }

  /** R_GATHER. */
  function GatherPhase(t: PeState): (o: PeOut)
    requires Valid(t) && t.state == GatherSt
    ensures Valid(o.t) && (!o.stop ==> Measure(o.t) < Measure(t))
  {
    var g := Gather(t.buf, t.inp, t.gatherSize);
    var t1 := t.(inp := t.inp[g.n..], off := (t.off + g.n) % U32, buf := g.buf, dat := g.dat);
    if g.dat == [] then PeOut(t1, true, RMore)
    else PeOut(t1.(state := t.next, next := Init, gatherSize := 0, buf := []), false, 0)
  }

  /** R_HDR: check "MZ" and seek to the PE signature. */
  function HdrPhase(t: PeState): (o: PeOut)
    requires Valid(t) && t.state == Hdr
    ensures Valid(o.t) && (!o.stop ==> Measure(o.t) < Measure(t))
  {
    if t.dat[..2] != [0x4d, 0x5a] then PeOut(t.(err := ESig), true, RErr)
    else PeOut(StartGather(t.(off := Le32(t.dat, PeOff)), PeSig, SigCoff), true, RSeek)
  }

  /** R_PE. */
  function PePhase(t: PeState): (o: PeOut)
    requires Valid(t) && t.state == PeSig
    ensures Valid(o.t) && (!o.stop ==> Measure(o.t) < Measure(t))
  {
    var c := CoffHdr(t.dat, t.info);
    if c.code != 0 then PeOut(t.(info := c.info, err := c.code), true, RErr)
    else PeOut(StartGather(t.(info := c.info), OptHdrSt, c.ohsz), false, 0)
  }

  /** R_OPTHDR. */
  function OptPhase(t: PeState): (o: PeOut)
    requires Valid(t) && t.state == OptHdrSt
    ensures Valid(o.t) && (!o.stop ==> Measure(o.t) < Measure(t))
  {
    var o := OptHdr(t.dat, t.info);
    if o.code != 0 then PeOut(t.(info := o.info, err := o.code), true, RErr)
    else PeOut(t.(info := o.info, edata := o.edata.value, idata := o.idata.value, dd := o.dd,
                  state := DD), true, RHdr)
  }

  /** R_DD: one data-directory entry per call. */
  function DdPhase(t: PeState): (o: PeOut)
    requires Valid(t) && t.state == DD
    ensures Valid(o.t) && (!o.stop ==> Measure(o.t) < Measure(t))
  {
    if t.dd == [] then PeOut(t.(state := SectGather), false, 0)
    else PeOut(t.(dataDir := DirAt(t.dd, 0), dd := t.dd[DirSize..]), true, RDd)
  }

  /** R_SECT_GATHER. */
  function SectGatherPhase(t: PeState): (o: PeOut)
    requires Valid(t) && t.state == SectGather
    ensures Valid(o.t) && (!o.stop ==> Measure(o.t) < Measure(t))
  {
    var size := t.info.sections * SectHdr;
    var t1 := StartGather(t, SectSt, size);
    if size > SectTableMax then PeOut(t1.(err := ELarge), true, RErr)
    else PeOut(t1, false, 0)
  }

  /** R_SECT (and R_SECT2 after its shift): one section header per call. */
  function SectPhase(t: PeState): (o: PeOut)
    requires Valid(t.(state := SectSt)) && (t.state == SectSt || t.state == Sect2)
    ensures Valid(o.t) && (!o.stop ==> Measure(o.t) < Measure(t))
  {
    if t.dat == [] then PeOut(t.(state := IDataSeek), false, 0)
    else
      var s := SectAt(t.dat);
      PeOut(t.(section := s, sections := t.sections + [s], state := Sect2), true, RSect)
  }

  /** R_IDATA_SEEK and R_EDATA_SEEK: seek to a directory, or skip it. */
  function SeekPhase(t: PeState, dir: DataDir, next: St, skip: PeOut): (o: PeOut)
    requires Valid(t) && t.state in {IDataSeek, EDataSeek} && next in {IDataCopy, EData} && Valid(skip.t)
    ensures Valid(o.t)
    ensures dir.vsize == 0 ==> o == skip
    ensures dir.vsize != 0 ==> o.stop
  {
    if dir.vsize == 0 then skip
    else
      var t1 := StartGather(t, next, dir.vsize);
      var off := OffsetOf(RealOffset(t.sections, dir.vaddr));
      if NegativeOffset(off) then PeOut(t1.(off := off, err := ELarge), true, RErr)
      else PeOut(t1.(off := off), true, RSeek)
  }

  /** R_IDATA_COPY: keep the import entries before the null entry. */
  function ImportPhase(t: PeState): (o: PeOut)
    requires Valid(t) && t.state == IDataCopy
    ensures Valid(o.t) && (!o.stop ==> Measure(o.t) < Measure(t))
  {
    if |t.dat| < ImpDirSize then PeOut(t.(err := ELarge), true, RErr)
    else
      var k := ImportEntries(t.dat);
      if k == 0 then PeOut(t.(state := IData), false, 0)
      else PeOut(t.(state := IData, impDir := t.impDir + t.dat[..k * ImpDirSize]), true, RImpDir)
  }

  /** One pass of the switch in ffpe_read. */
  function Step(t: PeState): (o: PeOut)
    requires Valid(t)
    ensures Valid(o.t)
    ensures !o.stop ==> Measure(o.t) < Measure(t)
  {
    match t.state
    case GatherSt => GatherPhase(t)
    case Init => PeOut(StartGather(t, Hdr, DosHdr), false, 0)
    case Hdr => HdrPhase(t)
    case PeSig => PePhase(t)
    case OptHdrSt => OptPhase(t)
    case DD => DdPhase(t)
    case SectGather => SectGatherPhase(t)
    case Sect2 => SectPhase(t.(dat := t.dat[SectHdr..]))
    case SectSt => SectPhase(t)
    case IDataCopy => ImportPhase(t)
    case IData => PeOut(t.(state := EDataSeek), false, 0)
    case IDataSeek => SeekPhase(t, t.idata, IDataCopy, PeOut(t.(state := EDataSeek), false, 0))
    case EDataSeek => SeekPhase(t, t.edata, EData, PeOut(t, true, RDone))
    case EData => PeOut(t, true, RDone)
  }

  /** One call of ffpe_read. */
  function Run(t: PeState): (o: PeOut)
    requires Valid(t)
    decreases Measure(t)
    ensures o.stop && Valid(o.t)
  {
    var s := Step(t);
    if s.stop then s else Run(s.t)
  }

  /** Successive calls with no new input: the results of k calls. */
  function Calls(t: PeState, k: nat): (cs: seq<PeOut>)
    requires Valid(t)
    decreases k
    ensures |cs| == k
    ensures forall i :: 0 <= i < k ==> Valid(cs[i].t)
  {
    if k == 0 then [] else var o := Run(t); [o] + Calls(o.t, k - 1)
  }

  // ---------------------------------------------------------------- properties

  /** The first call gathers the 64-byte MS-DOS header from the input: it
      fails with ESIG unless the header starts with "MZ", and otherwise asks
      to seek to the PE signature at the offset in the header's last field,
      where it will gather 24 bytes. */
  lemma DosHeader(t: PeState)
    requires Valid(t) && t.state == Init && |t.inp| >= DosHdr
    ensures var o := Run(t);
            if t.inp[..2] != [0x4d, 0x5a] then o.r == RErr && o.t.err == ESig
            else o.r == RSeek && o.t.off == Le32(t.inp, PeOff) && o.t.state == GatherSt
                 && o.t.next == PeSig && o.t.gatherSize == SigCoff && o.t.inp == t.inp[DosHdr..]
  {
    var t1 := StartGather(t, Hdr, DosHdr);
    assert Step(t) == PeOut(t1, false, 0);
    GatherComplete(t1);
    var t2 := Complete(t1);
    assert t2.dat[..2] == t.inp[..2] && Le32(t2.dat, PeOff) == Le32(t.inp, PeOff);
    assert Step(t2) == HdrPhase(t2);
  }

  /** GATHER returns MORE while the bytes are short, keeping all the input
      and advancing off by its length. */
  lemma GatherMore(t: PeState)
    requires Valid(t) && t.state == GatherSt && |t.buf| + |t.inp| < t.gatherSize
    ensures Run(t) == PeOut(t.(inp := [], off := (t.off + |t.inp|) % U32, buf := t.buf + t.inp, dat := []),
                            true, RMore)
  {
    GatherShort(t);
    assert Step(t) == GatherPhase(t);
  }

  lemma GatherShort(t: PeState)
    requires Valid(t) && t.state == GatherSt && |t.buf| + |t.inp| < t.gatherSize
    ensures GatherPhase(t)
            == PeOut(t.(inp := [], off := (t.off + |t.inp|) % U32, buf := t.buf + t.inp, dat := []), true, RMore)
  {
    var g := Gather(t.buf, t.inp, t.gatherSize);
    assert g.n == |t.inp| && t.inp[g.n..] == [] && t.inp[..g.n] == t.inp;
  }

  /** Once the bytes are there, GATHER takes only what is missing and goes
      on with the gathered structure in the state it was for. */
  lemma GatherComplete(t: PeState)
    requires Valid(t) && t.state == GatherSt && 0 < t.gatherSize <= |t.buf| + |t.inp|
    ensures Run(t) == Run(Complete(t))
  {
    GatherFull(t);
    assert Step(t) == GatherPhase(t);
  }

  /** The state a complete gather leaves: the structure in dat, what was
      missing of it taken from the input and counted in off. */
  function Complete(t: PeState): (c: PeState)
    requires Valid(t) && t.state == GatherSt && 0 < t.gatherSize <= |t.buf| + |t.inp|
    ensures Valid(c) && |c.dat| == t.gatherSize
  {
    var n := t.gatherSize - |t.buf|;
    t.(state := t.next, next := Init, gatherSize := 0, buf := [],
       dat := t.buf + t.inp[..n], inp := t.inp[n..], off := (t.off + n) % U32)
  }

  lemma GatherFull(t: PeState)
    requires Valid(t) && t.state == GatherSt && 0 < t.gatherSize <= |t.buf| + |t.inp|
    ensures GatherPhase(t) == PeOut(Complete(t), false, 0)
  {
  }

  /** The codes an error may store. */
  predicate ReaderErr(e: int)
  {
    e in {ESig, EFlag, EOhdr, EMagic, ELarge}
  }

  lemma StepErrors(t: PeState)
    requires Valid(t)
    ensures Step(t).stop && Step(t).r == RErr ==> ReaderErr(Step(t).t.err)
    ensures !(Step(t).stop && Step(t).r == RErr) ==> Step(t).t.err == t.err
  {
  }

  /** Every call that fails returns FFPE_ERR with one of the reader's own
      error codes stored, which has a message; a call that does not fail
      leaves err alone. */
  lemma {:induction false} RunErrors(t: PeState, sysMsg: string)
    requires Valid(t)
    decreases Measure(t)
    ensures Run(t).r == RErr ==> ReaderErr(Run(t).t.err) && ErrStr(Run(t).t.err, sysMsg) != ""
    ensures Run(t).r != RErr ==> Run(t).t.err == t.err
  {
    StepErrors(t);
    var s := Step(t);
    if s.stop {
      if s.r == RErr {
        ErrStrNamesReaderErrors(s.t.err, sysMsg);
      }
    } else {
      RunErrors(s.t, sysMsg);
    }
  }

  /** The COFF step on the gathered signature and header: a header that
      fails its checks fails the call with its code, and one that passes
      goes on to gather the optional header of the size it gives. */
  lemma CoffStep(t: PeState)
    requires Valid(t) && t.state == PeSig
    ensures var c := CoffHdr(t.dat, t.info);
            if c.code != 0 then Run(t) == PeOut(t.(info := c.info, err := c.code), true, RErr)
            else Run(t) == Run(StartGather(t.(info := c.info), OptHdrSt, c.ohsz))
  {
    assert Step(t) == PePhase(t);
  }

  /** After FFPE_HDR each data-directory entry comes back from one call as
      FFPE_DD, in order. */
  lemma {:induction false} DirsInOrder(t: PeState)
    requires Valid(t) && t.state == DD
    decreases |t.dd|
    ensures var n := |t.dd| / DirSize; var cs := Calls(t, n);
            forall i :: 0 <= i < n ==> cs[i].r == RDd && cs[i].t.dataDir == Dirs(t.dd)[i]
                                       && cs[i].t.state == DD
  {
    var n := |t.dd| / DirSize;
    if n > 0 {
      DdStep(t);
      var o := Run(t);
      assert o.t.dd == t.dd[DirSize..] && o.t.state == DD;
      assert |o.t.dd| / DirSize == n - 1;
      DirsInOrder(o.t);
      var rest, cs, ds := Calls(o.t, n - 1), Calls(t, n), Dirs(t.dd);
      assert cs == [o] + rest;
      forall i | 0 <= i < n
        ensures cs[i].r == RDd && cs[i].t.dataDir == ds[i] && cs[i].t.state == DD
      {
        if i > 0 {
          assert cs[i] == rest[i - 1] && ds[i] == Dirs(o.t.dd)[i - 1];
        }
      }
    }
  }

  /** One call in R_DD reports the first entry and drops it. */
  lemma DdStep(t: PeState)
    requires Valid(t) && t.state == DD && t.dd != []
    ensures Run(t) == PeOut(t.(dataDir := DirAt(t.dd, 0), dd := t.dd[DirSize..]), true, RDd)
    ensures Dirs(t.dd) == [DirAt(t.dd, 0)] + Dirs(t.dd[DirSize..])
  {
    assert Step(t) == DdPhase(t);
  }

  /** With the data directories used up, the next call starts on the
      section table. */
  lemma DirsDone(t: PeState)
    requires Valid(t) && t.state == DD && t.dd == []
    ensures Run(t) == Run(t.(state := SectGather))
  {
  }

  /** A section table over 64 KiB fails with ELARGE. */
  lemma SectionsTooLarge(t: PeState)
    requires Valid(t) && t.state == SectGather && t.info.sections * SectHdr > SectTableMax
    ensures Run(t).r == RErr && Run(t).t.err == ELarge
  {
  }

  /** The section headers not yet reported. */
  function Unread(t: PeState): seq<byte>
    requires Valid(t) && (t.state == SectSt || t.state == Sect2)
  {
    if t.state == Sect2 then t.dat[SectHdr..] else t.dat
  }

  /** One call in the section table reports the first header not yet
      reported as FFPE_SECT, appends it to sections and leaves the headers
      after it unreported: the table comes back in order, one header per
      call. */
  lemma SectStep(t: PeState)
    requires Valid(t) && (t.state == SectSt || t.state == Sect2) && |Unread(t)| >= SectHdr
    ensures var o := Run(t); var u := Unread(t);
            o.r == RSect && o.t.state == Sect2 && o.t.section == SectAt(u)
            && o.t.sections == t.sections + [SectAt(u)] && Unread(o.t) == u[SectHdr..]
  {
    assert Run(t) == Step(t) == SectPhase(t.(dat := Unread(t)));
  }

  /** With every header reported, the next call goes on to the import
      directory. */
  lemma SectionsDone(t: PeState)
    requires Valid(t) && (t.state == SectSt || t.state == Sect2) && Unread(t) == []
    ensures Run(t) == Run(t.(dat := [], state := IDataSeek))
  {
    assert Step(t) == SectPhase(t.(dat := []));
  }

  /** A zero-sized import directory is skipped. */
  lemma ImportSkipped(t: PeState)
    requires Valid(t) && t.state == IDataSeek && t.idata.vsize == 0
    ensures Run(t) == Run(t.(state := EDataSeek))
  {
  }

  /** A zero-sized export directory ends the file: FFPE_DONE. */
  lemma ExportAbsent(t: PeState)
    requires Valid(t) && t.state == EDataSeek && t.edata.vsize == 0
    ensures Run(t) == PeOut(t, true, RDone)
  {
  }

  /** A directory of non-zero size is gathered from the file offset
      real_offset gives: the call asks to seek there, or fails with ELARGE
      when the offset is negative. */
  lemma DirectorySeek(t: PeState)
    requires Valid(t) && t.state in {IDataSeek, EDataSeek}
    ensures var dir := if t.state == IDataSeek then t.idata else t.edata;
            var off := OffsetOf(RealOffset(t.sections, dir.vaddr));
            dir.vsize != 0 ==>
              Run(t).t.off == off && Run(t).t.state == GatherSt && Run(t).t.gatherSize == dir.vsize
              && Run(t).t.next == (if t.state == IDataSeek then IDataCopy else EData)
              && (Run(t).r == RErr <==> NegativeOffset(off)) && (Run(t).r == RErr || Run(t).r == RSeek)
              && (Run(t).r == RErr ==> Run(t).t.err == ELarge)
  {
  }

  /** The import copy appends the entries before the first null entry. */
  lemma ImportCopied(t: PeState)
    requires Valid(t) && t.state == IDataCopy && |t.dat| >= ImpDirSize && ImportEntries(t.dat) > 0
    ensures Run(t).r == RImpDir && Run(t).t.state == IData
    ensures Run(t).t.impDir == t.impDir + t.dat[..ImportEntries(t.dat) * ImpDirSize]
  {
  }

  /** An import directory that starts with the null entry adds nothing and
      goes on to the export directory. */
  lemma ImportEmpty(t: PeState)
    requires Valid(t) && t.state == IDataCopy && |t.dat| >= ImpDirSize && NullImport(t.dat)
    ensures Run(t) == Run(t.(state := EDataSeek))
  {
    ImportNullStep(t);
    IDataStep(t.(state := IData));
  }

  /** R_IDATA_COPY on a null first entry goes on to R_IDATA. */
  lemma ImportNullStep(t: PeState)
    requires Valid(t) && t.state == IDataCopy && |t.dat| >= ImpDirSize && NullImport(t.dat)
    ensures Valid(t.(state := IData)) && Run(t) == Run(t.(state := IData))
  {
    assert ImportEntries(t.dat) == 0;
  }

  /** R_IDATA goes on to R_EDATA_SEEK. */
  lemma IDataStep(t: PeState)
    requires Valid(t) && t.state == IData
    ensures Valid(t.(state := EDataSeek)) && Run(t) == Run(t.(state := EDataSeek))
  {
  }

  // ---------------------------------------------------------------- the reader object

  /** struct ffpe with ffpe_read over it. */
  class Reader {
    var state: St
    var next: St
    var err: int
    var gatherSize: nat
    var dd: seq<byte>
    var sections: seq<Sect>
    var impDir: seq<byte>
    var idata: DataDir
    var edata: DataDir
    var buf: seq<byte>
    var dat: seq<byte>
    var inp: seq<byte>
    var off: u32
    var info: Info
    var dataDir: DataDir
    var section: Sect

    function State(): PeState
      reads this
    {
      PeState(state, next, err, gatherSize, dd, sections, impDir, idata, edata, buf, dat, inp, off, info,
              dataDir, section)
    }

    /** ffpe_open: a zeroed reader. */
    constructor ()
      ensures State() == Init0()
    {
      state, next, err, gatherSize, dd := Init, Init, 0, 0, [];
      sections, impDir, idata, edata := [], [], DataDir(0, 0), DataDir(0, 0);
      buf, dat, inp, off, info := [], [], [], 0, Info0();
      dataDir, section := DataDir(0, 0), Sect([], 0, 0, 0, 0, 0);
    }

    /** ffpe_input. */
    method Input(data: seq<byte>)
      modifies this
      ensures State() == old(State()).(inp := data)
    {
      inp := data;
    }

    /** ffpe_read: passes until one returns. */
    method Read() returns (r: int)
      requires Valid(State())
      modifies this
      ensures Valid(State())
      ensures State() == Run(old(State())).t && r == Run(old(State())).r
    {
      while true
        invariant Valid(State())
        invariant Run(State()) == Run(old(State()))
        decreases Measure(State())
      {
        var stop: bool;
        stop, r := Pass();
        if stop {
          return;
        }
      }
    }

    /** One pass of the switch. */
    method Pass() returns (stop: bool, r: int)
      requires Valid(State())
      modifies this
      ensures PeOut(State(), stop, r) == Step(old(State()))
    {
      if state in {GatherSt, Init, Hdr, PeSig, OptHdrSt, DD, SectGather} {
        stop, r := HeaderPass();
      } else if state == Sect2 {
        dat := dat[SectHdr..];
        stop, r := SectPass();
      } else if state == SectSt {
        stop, r := SectPass();
      } else {
        stop, r := TablePass();
      }
    }

    /** The passes up to the section table. */
    method HeaderPass() returns (stop: bool, r: int)
      requires Valid(State()) && state in {GatherSt, Init, Hdr, PeSig, OptHdrSt, DD, SectGather}
      modifies this
      ensures PeOut(State(), stop, r) == Step(old(State()))
    {
      match state
      case GatherSt =>
        stop, r := GatherPass();
      case Init =>
        SetGather(Hdr, DosHdr);
        stop, r := false, 0;
      case Hdr =>
        stop, r := HdrPass();
      case PeSig =>
        stop, r := CoffPass();
      case OptHdrSt =>
        stop, r := OptPass();
      case DD =>
        stop, r := DdPass();
      case SectGather =>
        stop, r := SectGatherPass();
    }

    /** The passes over the import and export directories. */
    method TablePass() returns (stop: bool, r: int)
      requires Valid(State()) && state in {IDataCopy, IData, IDataSeek, EDataSeek, EData}
      modifies this
      ensures PeOut(State(), stop, r) == Step(old(State()))
    {
      match state
      case IDataCopy =>
        stop, r := ImportPass();
      case IData =>
        state := EDataSeek;
        stop, r := false, 0;
      case IDataSeek =>
        if idata.vsize == 0 {
          state := EDataSeek;
          stop, r := false, 0;
        } else {
          stop, r := SeekPass(idata, IDataCopy);
        }
      case EDataSeek =>
        if edata.vsize == 0 {
          return true, RDone;
        }
        stop, r := SeekPass(edata, EData);
      case EData =>
        return true, RDone;
    }

    /** The GATHER macro. */
    method SetGather(nx: St, size: nat)
      modifies this
      ensures State() == StartGather(old(State()), nx, size)
    {
      next, gatherSize, state := nx, size, GatherSt;
    }

    /** The ERR macro's store. */
    method SetErr(e: int)
      modifies this
      ensures State() == old(State()).(err := e)
    {
      err := e;
    }

    /** R_GATHER. */
    method GatherPass() returns (stop: bool, r: int)
      requires Valid(State()) && state == GatherSt
      modifies this
      ensures PeOut(State(), stop, r) == GatherPhase(old(State()))
    {
      var g := Gather(buf, inp, gatherSize);
      var nx := next;
      Take(g);
      if dat == [] {
        return true, RMore;
      }
      Gathered(nx);
      return false, 0;
    }

    /** Store what one gather took. */
    method Take(g: Gathered)
      requires g.n <= |inp|
      modifies this
      ensures State() == old(State()).(inp := old(inp)[g.n..], off := (old(off) + g.n) % U32, buf := g.buf,
                                       dat := g.dat)
    {
      inp, off, buf, dat := inp[g.n..], (off + g.n) % U32, g.buf, g.dat;
    }

    /** Leave R_GATHER for the state the bytes were for. */
    method Gathered(nx: St)
      modifies this
      ensures State() == old(State()).(state := nx, next := Init, gatherSize := 0, buf := [])
    {
      state, next, gatherSize, buf := nx, Init, 0, [];
    }

    /** R_HDR. */
    method HdrPass() returns (stop: bool, r: int)
      requires Valid(State()) && state == Hdr
      modifies this
      ensures PeOut(State(), stop, r) == HdrPhase(old(State()))
    {
      if dat[..2] != [0x4d, 0x5a] {
        SetErr(ESig);
        return true, RErr;
      }
      off := Le32(dat, PeOff);
      SetGather(PeSig, SigCoff);
      return true, RSeek;
    }

    /** R_PE. */
    method CoffPass() returns (stop: bool, r: int)
      requires Valid(State()) && state == PeSig
      modifies this
      ensures PeOut(State(), stop, r) == PePhase(old(State()))
    {
      var c := CoffHdr(dat, info);
      SetInfo(c.info);
      if c.code != 0 {
        SetErr(c.code);
        return true, RErr;
      }
      SetGather(OptHdrSt, c.ohsz);
      return false, 0;
    }

    /** R_OPTHDR. */
    method OptPass() returns (stop: bool, r: int)
      requires Valid(State()) && state == OptHdrSt
      modifies this
      ensures PeOut(State(), stop, r) == OptPhase(old(State()))
    {
      var o := OptHdr(dat, info);
      SetInfo(o.info);
      if o.code != 0 {
        SetErr(o.code);
        return true, RErr;
      }
      SetDirs(o.edata.value, o.idata.value, o.dd);
      return true, RHdr;
    }

    method SetInfo(i: Info)
      modifies this
      ensures State() == old(State()).(info := i)
    {
      info := i;
    }

    /** The directories pe_opthdr found; R_DD next. */
    method SetDirs(e: DataDir, i: DataDir, d: seq<byte>)
      modifies this
      ensures State() == old(State()).(edata := e, idata := i, dd := d, state := DD)
    {
      edata, idata, dd, state := e, i, d, DD;
    }

    /** R_DD. */
    method DdPass() returns (stop: bool, r: int)
      requires Valid(State()) && state == DD
      modifies this
      ensures PeOut(State(), stop, r) == DdPhase(old(State()))
    {
      if dd == [] {
        state := SectGather;
        return false, 0;
      }
      dataDir := DirAt(dd, 0);
      dd := dd[DirSize..];
      return true, RDd;
    }

    /** R_SECT_GATHER. */
    method SectGatherPass() returns (stop: bool, r: int)
      requires Valid(State()) && state == SectGather
      modifies this
      ensures PeOut(State(), stop, r) == SectGatherPhase(old(State()))
    {
      SetGather(SectSt, info.sections * SectHdr);
      if gatherSize > SectTableMax {
        SetErr(ELarge);
        return true, RErr;
      }
      return false, 0;
    }

    /** R_SECT on the view left by R_SECT2. */
    method SectPass() returns (stop: bool, r: int)
      requires Valid(State().(state := SectSt)) && (state == SectSt || state == Sect2)
      modifies this
      ensures PeOut(State(), stop, r) == SectPhase(old(State()))
    {
      if dat == [] {
        state := IDataSeek;
        return false, 0;
      }
      AddSect(SectAt(dat));
      return true, RSect;
    }

    /** A section header read; R_SECT2 next. */
    method AddSect(sc: Sect)
      modifies this
      ensures State() == old(State()).(section := sc, sections := old(sections) + [sc], state := Sect2)
    {
      section, sections, state := sc, sections + [sc], Sect2;
    }

    /** R_IDATA_COPY. */
    method ImportPass() returns (stop: bool, r: int)
      requires Valid(State()) && state == IDataCopy
      modifies this
      ensures PeOut(State(), stop, r) == ImportPhase(old(State()))
    {
      if |dat| < ImpDirSize {
        SetErr(ELarge);
        return true, RErr;
      }
      var k := ImportScan(dat);
      state := IData;
      if k == 0 {
        return false, 0;
      }
      impDir := impDir + dat[..k * ImpDirSize];
      return true, RImpDir;
    }

    /** The GATHER and real_offset part of R_IDATA_SEEK and R_EDATA_SEEK. */
    method SeekPass(dir: DataDir, nx: St) returns (stop: bool, r: int)
      requires Valid(State()) && state in {IDataSeek, EDataSeek} && nx in {IDataCopy, EData}
      requires dir.vsize != 0
      modifies this
      ensures PeOut(State(), stop, r) == SeekPhase(old(State()), dir, nx, PeOut(old(State()), true, RDone))
    {
      SetGather(nx, dir.vsize);
      var ro := RealOffsetScan(sections, dir.vaddr);
      off := OffsetOf(ro);
      if NegativeOffset(off) {
        SetErr(ELarge);
        return true, RErr;
      }
      return true, RSeek;
    }
  }
}
