/** The output of tools/mapPacker.py: `addr.bin`, one 16-byte big-endian record (`">LLLHBB"`) per
    symbol, `name.bin`, every name NUL-padded to its `strlen`, and the sizes written for the linker
    script. A record holds the offset of its name in `name.bin`, the running total of the padded
    lengths before it. */
module MapLayout {
  import opened CInt
  import opened MapText
  import opened MapParse
  import opened MapSort

  const UINT8_LIMIT: int := 0x100
  const UINT16_LIMIT: int := 0x1_0000
  const UINT32_LIMIT: int := 0x1_0000_0000

  /** The size of one record of `addr.bin`. */
  const RECORD_SIZE: int := 16

  /** The low `k` bytes of `n`, most significant first (`struct.pack` with `>`). */
  function BigEndian(n: nat, k: nat): (bs: seq<byte>)
    ensures |bs| == k
  {
    if k == 0 then [] else BigEndian(n / 0x100, k - 1) + [n % 0x100]
  }

  /** The number that big-endian bytes denote. */
  function FromBigEndian(bs: seq<byte>): nat {
    if |bs| == 0 then 0 else 0x100 * FromBigEndian(bs[..|bs| - 1]) + bs[|bs| - 1]
  }

  function Pow256(k: nat): (p: nat)
    ensures p > 0
  {
    if k == 0 then 1 else 0x100 * Pow256(k - 1)
  }

  /** Reading back `k` big-endian bytes gives any number below 256^k. */
  lemma {:induction false} BigEndianRoundTrip(n: nat, k: nat)
    requires n < Pow256(k)
    ensures FromBigEndian(BigEndian(n, k)) == n
  {
    if k > 0 {
      BigEndianRoundTrip(n / 0x100, k - 1);
      assert BigEndian(n, k)[..k - 1] == BigEndian(n / 0x100, k - 1);
    }
  }

  lemma Pow256Widths()
    ensures Pow256(1) == UINT8_LIMIT && Pow256(2) == UINT16_LIMIT && Pow256(4) == UINT32_LIMIT
  {
    assert Pow256(2) == 0x100 * Pow256(1);
    assert Pow256(4) == 0x100 * (0x100 * Pow256(2));
  }

  /** Whether `struct.pack(">LLLHBB", ...)` accepts the fields of a record: `struct.error` otherwise. */
  predicate Fits(s: Symbol, nameOffset: nat) {
    s.addr < UINT32_LIMIT && s.size < UINT32_LIMIT && nameOffset < UINT32_LIMIT
    && |s.name| < UINT16_LIMIT && s.typ as int < UINT8_LIMIT && s.errc as int < UINT8_LIMIT
  }

  /** The record of `s` with its name at `nameOffset` (mapPacker.py line 91): the address, the size,
      the offset, the unpadded name length, the type and the error character. */
  function PackRecord(s: Symbol, nameOffset: nat): (r: Option<seq<byte>>)
    ensures r.Some? <==> Fits(s, nameOffset)
    ensures r.Some? ==> |r.value| == RECORD_SIZE
  {
    if Fits(s, nameOffset) then
      Some(BigEndian(s.addr, 4) + BigEndian(s.size, 4) + BigEndian(nameOffset, 4) + BigEndian(|s.name|, 2)
           + [s.typ as int] + [s.errc as int])
    else None
  }

  /** The fields of a 16-byte record, as the game's `struct MapSymbol` reads them. */
  datatype Fields = Fields(addr: nat, size: nat, nameOffset: nat, nameLength: nat, typ: nat, errc: nat)

  function UnpackRecord(bs: seq<byte>): Fields
    requires |bs| == RECORD_SIZE
  {
    Fields(FromBigEndian(bs[0..4]), FromBigEndian(bs[4..8]), FromBigEndian(bs[8..12]),
           FromBigEndian(bs[12..14]), bs[14], bs[15])
  }

  /** A packed record reads back as the symbol's fields. */
  lemma RecordRoundTrip(s: Symbol, nameOffset: nat)
    requires Fits(s, nameOffset)
    ensures UnpackRecord(PackRecord(s, nameOffset).value)
            == Fields(s.addr, s.size, nameOffset, |s.name|, s.typ as int, s.errc as int)
  {
    var bs := PackRecord(s, nameOffset).value;
    Pow256Widths();
    BigEndianRoundTrip(s.addr, 4);
    BigEndianRoundTrip(s.size, 4);
    BigEndianRoundTrip(nameOffset, 4);
    BigEndianRoundTrip(|s.name|, 2);
    assert bs[0..4] == BigEndian(s.addr, 4);
    assert bs[4..8] == BigEndian(s.size, 4);
    assert bs[8..12] == BigEndian(nameOffset, 4);
    assert bs[12..14] == BigEndian(|s.name|, 2);
  }

  // ---------------------------------------------------------------------------------------------------
  // The name table

  /** `bytes(name, encoding="ascii")`: the character codes of an ASCII name, which is what the parser
      produces from ASCII text (`PackMap`); other characters, where Python raises, are cut to a byte. */
  function AsciiBytes(name: string): (bs: seq<byte>)
    ensures |bs| == |name| && forall i :: 0 <= i < |name| ==> bs[i] == name[i] as int % 0x100
    ensures IsAscii(name) ==> forall i :: 0 <= i < |name| ==> bs[i] == name[i] as int
  {
    if |name| == 0 then [] else [name[0] as int % 0x100] + AsciiBytes(name[1..])
  }

  function Zeros(n: nat): (z: seq<byte>)
    ensures |z| == n && forall i :: 0 <= i < n ==> z[i] == 0
  {
    if n == 0 then [] else Zeros(n - 1) + [0]
  }

  /** `struct.pack(">%ds" % strlen, name)`: the name followed by NULs up to its padded length. */
  function PaddedName(s: Symbol): (bs: seq<byte>)
    ensures |bs| == s.StrLen() && bs[..|s.name|] == AsciiBytes(s.name)
    ensures forall i :: |s.name| <= i < |bs| ==> bs[i] == 0
  {
    AsciiBytes(s.name) + Zeros(s.StrLen() - |s.name|)
  }

  /** The total padded length of the names of `syms`: the offset of the name after them. */
  function NameSize(syms: seq<Symbol>): nat {
    if |syms| == 0 then 0 else NameSize(syms[..|syms| - 1]) + Last(syms).StrLen()
  }

  predicate AsciiNames(syms: seq<Symbol>) {
    forall k :: 0 <= k < |syms| ==> IsAscii(syms[k].name)
  }

  /** `name.bin` for `syms`. */
  function NameTable(syms: seq<Symbol>): (bs: seq<byte>)
    ensures |bs| == NameSize(syms)
  {
    if |syms| == 0 then [] else NameTable(syms[..|syms| - 1]) + PaddedName(Last(syms))
  }

  /** `addr.bin` for `syms`, each record with the offset of its name; `None` where `struct.pack`
      raises. */
  function AddrTable(syms: seq<Symbol>): (r: Option<seq<byte>>)
    ensures r.Some? ==> |r.value| == RECORD_SIZE * |syms|
  {
    if |syms| == 0 then Some([])
    else
      match AddrTable(syms[..|syms| - 1])
      case None => None
      case Some(t) =>
        match PackRecord(Last(syms), NameSize(syms[..|syms| - 1]))
        case None => None
        case Some(rec) => Some(t + rec)
  }

  lemma AppendAssoc(a: seq<byte>, b: seq<byte>, c: seq<byte>)
    ensures a + b + c == a + (b + c)
  {
  }

  /** The last record's padded name ends the table. */
  lemma NameTableLast(syms: seq<Symbol>)
    requires |syms| > 0
    ensures NameTable(syms) == NameTable(syms[..|syms| - 1]) + PaddedName(syms[|syms| - 1])
  {
  }

  lemma {:induction false} NameTableAppend(s: seq<Symbol>, t: seq<Symbol>)
    ensures NameTable(s + t) == NameTable(s) + NameTable(t)
    decreases |t|
  {
    if |t| == 0 {
      assert s + t == s;
    } else {
      var init := t[..|t| - 1];
      assert (s + t)[..|s + t| - 1] == s + init && (s + t)[|s + t| - 1] == t[|t| - 1];
      NameTableLast(s + t);
      NameTableLast(t);
      NameTableAppend(s, init);
      AppendAssoc(NameTable(s), NameTable(init), PaddedName(t[|t| - 1]));
    }
  }

  lemma TakeDrop(s: seq<Symbol>, m: nat)
    requires m <= |s|
    ensures s[..m] + s[m..] == s
  {
  }

  lemma TakeTake(s: seq<Symbol>, m: nat)
    requires m < |s|
    ensures s[..m + 1][..m] == s[..m] && s[..m + 1][m] == s[m]
  {
  }

  /** The name table is the names before record `k`, the padded name of `k`, and the names after. */
  lemma NameTableAround(syms: seq<Symbol>, k: nat)
    requires k < |syms|
    ensures NameTable(syms) == NameTable(syms[..k]) + PaddedName(syms[k]) + NameTable(syms[k + 1..])
  {
    TakeDrop(syms, k + 1);
    NameTableAppend(syms[..k + 1], syms[k + 1..]);
    TakeTake(syms, k);
    NameTableLast(syms[..k + 1]);
  }

  lemma SliceOfMiddle(a: seq<byte>, b: seq<byte>, c: seq<byte>, n: nat)
    requires n < |b|
    ensures (a + b + c)[|a|..|a| + n] == b[..n] && (a + b + c)[|a| + n] == b[n]
  {
  }

  /** The name table holds every name at the offset its record stores, followed by a NUL. */
  lemma NameAtOffset(syms: seq<Symbol>, k: nat)
    requires k < |syms|
    ensures var off := NameSize(syms[..k]);
      off + |syms[k].name| < |NameTable(syms)|
      && NameTable(syms)[off..off + |syms[k].name|] == AsciiBytes(syms[k].name)
      && NameTable(syms)[off + |syms[k].name|] == 0
  {
    NameTableAround(syms, k);
    SliceOfMiddle(NameTable(syms[..k]), PaddedName(syms[k]), NameTable(syms[k + 1..]), |syms[k].name|);
  }

  /** Every record of `syms` fits its fields, each with the offset of its own name. */
  predicate AllFit(syms: seq<Symbol>) {
    forall k :: 0 <= k < |syms| ==> Fits(syms[k], NameSize(syms[..k]))
  }

  lemma AllFitLast(syms: seq<Symbol>)
    requires |syms| > 0
    ensures AllFit(syms) <==> AllFit(syms[..|syms| - 1]) && Fits(Last(syms), NameSize(syms[..|syms| - 1]))
  {
    var init := syms[..|syms| - 1];
    forall k | 0 <= k < |init|
      ensures init[k] == syms[k] && init[..k] == syms[..k]
    {
    }
  }

  /** `addr.bin` is written exactly when every record fits its fields, each with its own offset. */
  lemma {:induction false} AddrTableFits(syms: seq<Symbol>)
    ensures AddrTable(syms).Some? <==> AllFit(syms)
  {
    if |syms| > 0 {
      AddrTableFits(syms[..|syms| - 1]);
      AllFitLast(syms);
    }
  }

  /** Record `k` of `addr.bin` sits at byte 16k and reads back as the symbol with the offset of its
      name. */
  lemma {:induction false} RecordAt(syms: seq<Symbol>, k: nat)
    requires AddrTable(syms).Some? && k < |syms|
    ensures Fits(syms[k], NameSize(syms[..k]))
    ensures AddrTable(syms).value[RECORD_SIZE * k..RECORD_SIZE * k + RECORD_SIZE]
            == PackRecord(syms[k], NameSize(syms[..k])).value
  {
    var init := syms[..|syms| - 1];
    var t := AddrTable(init).value;
    if k < |init| {
      RecordAt(init, k);
      assert init[k] == syms[k] && init[..k] == syms[..k];
      assert AddrTable(syms).value[..RECORD_SIZE * |init|] == t;
    } else {
      assert init == syms[..k];
    }
  }

  /** What the game reads: record `k` of `addr.bin` names the symbol's address, size, type and error
      character, and its offset and length find the name in `name.bin`. */
  lemma LookUp(syms: seq<Symbol>, k: nat)
    requires AddrTable(syms).Some? && k < |syms|
    ensures var f := UnpackRecord(AddrTable(syms).value[RECORD_SIZE * k..RECORD_SIZE * k + RECORD_SIZE]);
      f.addr == syms[k].addr && f.size == syms[k].size && f.typ == syms[k].typ as int && f.errc == syms[k].errc as int
      && f.nameOffset + f.nameLength < |NameTable(syms)|
      && NameTable(syms)[f.nameOffset..f.nameOffset + f.nameLength] == AsciiBytes(syms[k].name)
  {
    RecordAt(syms, k);
    RecordRoundTrip(syms[k], NameSize(syms[..k]));
    NameAtOffset(syms, k);
  }

  // ---------------------------------------------------------------------------------------------------
  // Writing the tables

  /** The loop of mapPacker.py lines 89-93 over the sorted records, with `nameOffset` as the running
      total; `ok` is false where `struct.pack` raises. */
  method WriteTables(symNames: seq<Symbol>) returns (addrBin: seq<byte>, nameBin: seq<byte>, ok: bool)
    ensures ok <==> AddrTable(symNames).Some?
    ensures ok ==> addrBin == AddrTable(symNames).value && nameBin == NameTable(symNames)
  {
    addrBin, nameBin := [], [];
    var nameOffset := 0;
    for k := 0 to |symNames|
      invariant AddrTable(symNames[..k]) == Some(addrBin)
      invariant nameBin == NameTable(symNames[..k]) && nameOffset == NameSize(symNames[..k])
    {
      var x := symNames[k];
      assert symNames[..k + 1][..k] == symNames[..k] && Last(symNames[..k + 1]) == x;
      var rec := PackRecord(x, nameOffset);
      if rec.None? {
        AddrTableStops(symNames, k + 1);
        return addrBin, nameBin, false;
      }
      addrBin := addrBin + rec.value;
      nameBin := nameBin + PaddedName(x);
      nameOffset := nameOffset + x.StrLen();
    }
    assert symNames[..|symNames|] == symNames;
    ok := true;
  }

  lemma {:induction false} AddrTableStops(syms: seq<Symbol>, k: nat)
    requires k <= |syms| && AddrTable(syms[..k]).None?
    ensures AddrTable(syms).None?
    decreases |syms| - k
  {
    if k < |syms| {
      assert syms[..k + 1][..k] == syms[..k];
      AddrTableStops(syms, k + 1);
    } else {
      assert syms[..k] == syms;
    }
  }

  /** The three lines written to `debug_map.txt` (mapPacker.py line 103); the name size is in lower-case
      hexadecimal, the other two in upper case. */
  function DebugMapText(addrSize: nat, nameSize: nat): (text: string)
    ensures |text| > 0
  {
    "DEBUG_MAP_DATA_ADDR_SIZE = 0x" + HexText(addrSize, true) + ";\nDEBUG_MAP_DATA_NAME_SIZE = 0x"
    + HexText(nameSize, false) + ";\nDEBUG_MAP_DATA_SIZE = 0x" + HexText(addrSize + nameSize, true) + ";"
  }

  /** The packer from the lines of `nm` output to the two tables and the text for the linker script:
      parse, sort in place, write. `ok` is false where the script raises. */
  method PackMap(lines: seq<string>) returns (addrBin: seq<byte>, nameBin: seq<byte>, debugMap: string, ok: bool)
    requires forall k :: 0 <= k < |lines| ==> IsAscii(lines[k])
    ensures ok <==> ParseAll(lines).Some? && AddrTable(SortByAddr(ParseAll(lines).value)).Some?
    ensures ok ==> var sorted := SortByAddr(ParseAll(lines).value);
      AsciiNames(sorted) && addrBin == AddrTable(sorted).value && nameBin == NameTable(sorted)
      && |addrBin| == RECORD_SIZE * |ParseAll(lines).value| && |nameBin| == NameSize(sorted)
      && debugMap == DebugMapText(|addrBin|, |nameBin|)
  {
    var symNames;
    symNames, ok := ParseSymbols(lines);
    if !ok {
      return [], [], "", false;
    }
    ParseAllAscii(lines);
    var a := new Symbol[|symNames|](i requires 0 <= i < |symNames| => symNames[i]);
    assert a[..] == symNames;
    SortSymbols(a);
    var sorted := a[..];
    SortedNamesAscii(symNames);
    addrBin, nameBin, ok := WriteTables(sorted);
    if !ok {
      return [], [], "", false;
    }
    debugMap := DebugMapText(|addrBin|, |nameBin|);
  }

  /** Sorting keeps the records, so their names stay ASCII. */
  lemma SortedNamesAscii(syms: seq<Symbol>)
    requires AsciiRecords(syms)
    ensures AsciiNames(SortByAddr(syms))
  {
    SortByAddrPermutes(syms);
    var r := SortByAddr(syms);
    forall k | 0 <= k < |r|
      ensures IsAscii(r[k].name)
    {
      assert r[k] in multiset(r);
      assert r[k] in multiset(syms);
      var m :| 0 <= m < |syms| && syms[m] == r[k];
    }
  }
}
