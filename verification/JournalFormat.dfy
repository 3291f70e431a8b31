/** Pages, and the control block of the journal as bytes on the medium. */
module JournalFormat {
  import opened Errors
  import opened Bytes
  import opened Block

  const PAGE := 4096
  const PAGE_SECTORS := 8
  const JCTRL_PAGES := 4
  const CTRL_BYTES := 16384
  const HEADER_LEN := 32
  const JCAP := 2044
  const JDATA_START_PAGE := 5
  const FIRST_DATA_PAGE := 2049
  const MAGIC: u32 := 0x4a4c_4254
  const STATE_EMPTY: u32 := 0
  const STATE_COMMITTED: u32 := 1

  type Page = p: seq<u8> | |p| == 4096 witness seq(4096, _ => 0)
  type CtrlBuf = b: seq<u8> | |b| == 16384 witness seq(16384, _ => 0)

  datatype PageWrite = PageWrite(page: u64, image: Page)

  /** The checksum is an arbitrary pure function: nothing below depends on which. */
  const Crc32: seq<u8> -> u32

  // ---- pages as sectors -----------------------------------------------------

  function PageSector(image: Page, i: nat): Sector
    requires i < 8
  {
    image[i * 512..i * 512 + 512]
  }

  /** The sector writes of a list of page writes, in order. */
  function PageSectors(ps: seq<PageWrite>): (ws: seq<Write>)
    ensures |ws| == 8 * |ps|
  {
    seq(8 * |ps|, j requires 0 <= j < 8 * |ps| =>
      Write(ps[j / 8].page * 8 + j % 8, PageSector(ps[j / 8].image, j % 8)))
  }

  lemma ConcatSector(a: seq<PageWrite>, b: seq<PageWrite>, j: nat)
    requires j < 8 * (|a| + |b|)
    ensures PageSectors(a + b)[j] == if j < 8 * |a| then PageSectors(a)[j] else PageSectors(b)[j - 8 * |a|]
  {
    if j >= 8 * |a| {
      var k := j - 8 * |a|;
      assert j / 8 == |a| + k / 8 && j % 8 == k % 8;
      assert (a + b)[j / 8] == b[k / 8];
    }
  }

  lemma PageSectorsConcat(a: seq<PageWrite>, b: seq<PageWrite>)
    ensures PageSectors(a + b) == PageSectors(a) + PageSectors(b)
  {
    var both, parts := PageSectors(a + b), PageSectors(a) + PageSectors(b);
    forall j | 0 <= j < 8 * (|a| + |b|)
      ensures both[j] == parts[j]
    {
      ConcatSector(a, b, j);
    }
    assert both == parts;
  }

  /** Page `p` as the device holds it. */
  function DiskPage(d: Disk, p: nat): (image: Page)
    requires p * 8 + 8 <= |d|
  {
    seq(4096, i requires 0 <= i < 4096 => d[p * 8 + i / 512][i % 512])
  }

  lemma DiskPageSector(d: Disk, p: nat, i: nat)
    requires p * 8 + 8 <= |d| && i < 8
    ensures PageSector(DiskPage(d, p), i) == d[p * 8 + i]
  {
    var s := PageSector(DiskPage(d, p), i);
    forall k | 0 <= k < 512
      ensures s[k] == d[p * 8 + i][k]
    {
      assert (i * 512 + k) / 512 == i && (i * 512 + k) % 512 == k;
    }
  }

  /** Equal sectors make equal pages. */
  lemma DiskPageFrom(d: Disk, p: nat, image: Page)
    requires p * 8 + 8 <= |d|
    requires forall i :: 0 <= i < 8 ==> d[p * 8 + i] == PageSector(image, i)
    ensures DiskPage(d, p) == image
  {
    forall k | 0 <= k < 4096
      ensures DiskPage(d, p)[k] == image[k]
    {
      assert d[p * 8 + k / 512] == PageSector(image, k / 512);
    }
  }

  // ---- the control block ------------------------------------------------------

  function EntryBytes(entries: seq<u64>): (s: seq<u8>)
    ensures |s| == 8 * |entries|
  {
    seq(8 * |entries|, i requires 0 <= i < 8 * |entries| => ToLe(entries[i / 8], 8)[i % 8])
  }

  function CrcInput(entries: seq<u64>, txid: u64): seq<u8>
    requires |entries| <= JCAP
  {
    ToLe(txid, 8) + ToLe(|entries|, 8) + EntryBytes(entries)
  }

  function Header(entries: seq<u64>, txid: u64, state: u32): (h: seq<u8>)
    requires |entries| <= JCAP
    ensures |h| == HEADER_LEN
  {
    ToLe(MAGIC, 4) + ToLe(1, 4) + ToLe(state, 4) + ToLe(Crc32(CrcInput(entries, txid)), 4)
    + ToLe(txid, 8) + ToLe(|entries|, 8)
  }

  /** Header, packed entries, zeros. */
  function Render(entries: seq<u64>, txid: u64, state: u32): (buf: CtrlBuf)
    requires |entries| <= JCAP
  {
    Header(entries, txid, state) + EntryBytes(entries) + seq(CTRL_BYTES - HEADER_LEN - 8 * |entries|, _ => 0)
  }

  datatype Ctrl = Ctrl(state: u32, entries: seq<u64>)

  function StateField(buf: CtrlBuf): u32 { GetU32(buf, 8) }

  function EntriesIn(buf: CtrlBuf, count: nat): (es: seq<u64>)
    requires count <= JCAP
    ensures |es| == count
  {
    seq(count, i requires 0 <= i < count => GetU64(buf, HEADER_LEN + i * 8))
  }

  /** What the journal reads back from a control block; `None` when it is not one. */
  function ParseCtrl(buf: CtrlBuf): Option<Ctrl> {
    if GetU32(buf, 0) != MAGIC || GetU64(buf, 24) > JCAP then None
    else
      var entries := EntriesIn(buf, GetU64(buf, 24));
      if Crc32(CrcInput(entries, GetU64(buf, 16))) != GetU32(buf, 12) then None
      else Some(Ctrl(StateField(buf), entries))
  }

  lemma EntryByte(entries: seq<u64>, i: nat, k: nat)
    requires i < |entries| && k < 8
    ensures EntryBytes(entries)[i * 8 + k] == ToLe(entries[i], 8)[k]
  {
    assert (i * 8 + k) / 8 == i && (i * 8 + k) % 8 == k;
  }

  lemma EntryAt(entries: seq<u64>, i: nat)
    requires i < |entries|
    ensures EntryBytes(entries)[i * 8..i * 8 + 8] == ToLe(entries[i], 8)
  {
    var all, one := EntryBytes(entries), ToLe(entries[i], 8);
    forall k | 0 <= k < 8
      ensures all[i * 8 + k] == one[k]
    {
      EntryByte(entries, i, k);
    }
    assert all[i * 8..i * 8 + 8] == one;
  }

  lemma RenderHeader(entries: seq<u64>, txid: u64, state: u32)
    requires |entries| <= JCAP
    ensures var buf := Render(entries, txid, state);
      && GetU32(buf, 0) == MAGIC && StateField(buf) == state
      && GetU32(buf, 12) == Crc32(CrcInput(entries, txid))
      && GetU64(buf, 16) == txid && GetU64(buf, 24) == |entries|
  {
    var buf := Render(entries, txid, state);
    var crc := Crc32(CrcInput(entries, txid));
    var h := Header(entries, txid, state);
    assert buf[..32] == h;
    assert buf[0..4] == h[0..4] == ToLe(MAGIC, 4);
    assert buf[8..12] == h[8..12] == ToLe(state, 4);
    assert buf[12..16] == h[12..16] == ToLe(crc, 4);
    assert buf[16..24] == h[16..24] == ToLe(txid, 8);
    assert buf[24..32] == h[24..32] == ToLe(|entries|, 8);
    GetAt32(buf, 0, MAGIC);
    GetAt32(buf, 8, state);
    GetAt32(buf, 12, crc);
    GetAt64(buf, 16, txid);
    GetAt64(buf, 24, |entries|);
  }

  lemma RenderEntry(entries: seq<u64>, txid: u64, state: u32, i: nat)
    requires i < |entries| <= JCAP
    ensures GetU64(Render(entries, txid, state), HEADER_LEN + i * 8) == entries[i]
  {
    var buf := Render(entries, txid, state);
    assert buf[32 + i * 8..32 + i * 8 + 8] == EntryBytes(entries)[i * 8..i * 8 + 8];
    EntryAt(entries, i);
    GetAt64(buf, 32 + i * 8, entries[i]);
  }

  /** A rendered control block reads back as what was rendered. */
  lemma RenderParse(entries: seq<u64>, txid: u64, state: u32)
    requires |entries| <= JCAP
    ensures ParseCtrl(Render(entries, txid, state)) == Some(Ctrl(state, entries))
  {
    RenderHeader(entries, txid, state);
    forall i | 0 <= i < |entries|
      ensures EntriesIn(Render(entries, txid, state), |entries|)[i] == entries[i]
    {
      RenderEntry(entries, txid, state, i);
    }
    assert EntriesIn(Render(entries, txid, state), |entries|) == entries;
  }

  /** The bytes of a control block with these entries: magic number, state, checksum, transaction number, count,
      entries. */
  ghost predicate CtrlBytes(buf: CtrlBuf, txid: u64, state: u32, entries: seq<u64>) {
    && |entries| <= JCAP && buf[0..4] == ToLe(MAGIC, 4) && buf[8..12] == ToLe(state, 4)
    && buf[12..16] == ToLe(Crc32(CrcInput(entries, txid)), 4)
    && buf[16..24] == ToLe(txid, 8) && buf[24..32] == ToLe(|entries|, 8)
    && buf[32..32 + 8 * |entries|] == EntryBytes(entries)
  }

  /** A block is read exactly when it has these bytes, the checksum included. */
  lemma CtrlAccepts(buf: CtrlBuf, c: Ctrl)
    ensures ParseCtrl(buf) == Some(c) <==> CtrlBytes(buf, GetU64(buf, 16), c.state, c.entries)
  {
    hide Crc32, CrcInput, EntryBytes, EntriesIn;
    var txid := GetU64(buf, 16);
    FieldIs32(buf, 0, MAGIC);
    FieldIs32(buf, 8, c.state);
    FieldIs64(buf, 16, txid);
    if |c.entries| <= JCAP {
      FieldIs32(buf, 12, Crc32(CrcInput(c.entries, txid)));
      FieldIs64(buf, 24, |c.entries|);
      EntriesAre(buf, c.entries);
    }
  }

  lemma EntriesAre(buf: CtrlBuf, entries: seq<u64>)
    requires |entries| <= JCAP
    ensures EntriesIn(buf, |entries|) == entries <==> buf[32..32 + 8 * |entries|] == EntryBytes(entries)
  {
    var packed := buf[32..32 + 8 * |entries|];
    forall i | 0 <= i < |entries|
      ensures EntriesIn(buf, |entries|)[i] == entries[i] <==> packed[8 * i..8 * i + 8] == ToLe(entries[i], 8)
    {
      FieldIs64(buf, 32 + i * 8, entries[i]);
      SliceOfSlice(buf, 32, 32 + 8 * |entries|, 8 * i, 8 * i + 8);
    }
    if EntriesIn(buf, |entries|) == entries {
      forall k | 0 <= k < 8 * |entries|
        ensures packed[k] == EntryBytes(entries)[k]
      {
        var i := k / 8;
        assert packed[k] == packed[8 * i..8 * i + 8][k % 8];
      }
    }
    if packed == EntryBytes(entries) {
      forall i | 0 <= i < |entries|
        ensures EntriesIn(buf, |entries|)[i] == entries[i]
      {
        EntryAt(entries, i);
        assert packed[8 * i..8 * i + 8] == EntryBytes(entries)[i * 8..i * 8 + 8];
      }
    }
  }

  /** The control bytes on the medium: pages 1 to 4. */
  function CtrlOf(d: Disk): (buf: CtrlBuf)
    requires |d| >= 40
  {
    seq(CTRL_BYTES, i requires 0 <= i < CTRL_BYTES => d[8 + i / 512][i % 512])
  }

  function CtrlSector(buf: CtrlBuf, q: nat): Sector
    requires q < 32
  {
    buf[q * 512..q * 512 + 512]
  }

  lemma CtrlOfSector(d: Disk, q: nat)
    requires |d| >= 40 && q < 32
    ensures CtrlSector(CtrlOf(d), q) == d[8 + q]
  {
    var s := CtrlSector(CtrlOf(d), q);
    forall k | 0 <= k < 512
      ensures s[k] == d[8 + q][k]
    {
      assert (q * 512 + k) / 512 == q && (q * 512 + k) % 512 == k;
    }
  }

  lemma CtrlOfFrom(d: Disk, buf: CtrlBuf)
    requires |d| >= 40
    requires forall q :: 0 <= q < 32 ==> d[8 + q] == CtrlSector(buf, q)
    ensures CtrlOf(d) == buf
  {
    forall k | 0 <= k < CTRL_BYTES
      ensures CtrlOf(d)[k] == buf[k]
    {
      assert d[8 + k / 512] == CtrlSector(buf, k / 512);
    }
  }

  /** The sector writes that put `buf` in the control pages. */
  function CtrlWrites(buf: CtrlBuf): (ws: seq<Write>)
    ensures |ws| == 32
  {
    seq(32, q requires 0 <= q < 32 => Write(8 + q, CtrlSector(buf, q)))
  }

  function CtrlPages(buf: CtrlBuf): (ps: seq<PageWrite>)
    ensures |ps| == 4
  {
    seq(4, p requires 0 <= p < 4 => PageWrite(1 + p, buf[p * 4096..p * 4096 + 4096]))
  }

  lemma CtrlPagesSectors(buf: CtrlBuf)
    ensures PageSectors(CtrlPages(buf)) == CtrlWrites(buf)
  {
    var ws := PageSectors(CtrlPages(buf));
    forall j | 0 <= j < 32
      ensures ws[j] == CtrlWrites(buf)[j]
    {
      var p, i := j / 8, j % 8;
      var image := CtrlPages(buf)[p].image;
      SliceOfSlice(buf, p * 4096, p * 4096 + 4096, i * 512, i * 512 + 512);
      assert p * 4096 + i * 512 == j * 512;
    }
  }

  /** Only the header sector tells an EMPTY control block from a COMMITTED one, or one `txid` from another. */
  lemma RenderDiffersInHeader(entries: seq<u64>, t1: u64, s1: u32, t2: u64, s2: u32, q: nat)
    requires |entries| <= JCAP && 0 < q < 32
    ensures CtrlSector(Render(entries, t1, s1), q) == CtrlSector(Render(entries, t2, s2), q)
  {
    var a, b := Render(entries, t1, s1), Render(entries, t2, s2);
    assert forall i :: 32 <= i < CTRL_BYTES ==> a[i] == b[i];
  }

  // ---- the same in place ----------------------------------------------------

  method PutBytes(buf: array<u8>, off: nat, bytes: seq<u8>)
    requires off + |bytes| <= buf.Length
    modifies buf
    ensures off == 0 ==> buf[..] == bytes + old(buf[..])[|bytes|..]
    ensures buf[..] == old(buf[..])[..off] + bytes + old(buf[..])[off + |bytes|..]
  {
    for i := 0 to |bytes|
      invariant forall k :: 0 <= k < buf.Length ==>
        buf[k] == if off <= k < off + i then bytes[k - off] else old(buf[k])
    {
      buf[off + i] := bytes[i];
    }
  }

  /** The buffer once `i` entries are packed. */
  ghost function Packed(entries: seq<u64>, i: nat): (b: seq<u8>)
    requires i <= |entries| <= JCAP
    ensures |b| == CTRL_BYTES
  {
    seq(32, _ => 0) + EntryBytes(entries)[..8 * i] + seq(CTRL_BYTES - 32 - 8 * i, _ => 0)
  }

  lemma PackOne(head: seq<u8>, all: seq<u8>, n: nat, one: seq<u8>, tail: seq<u8>)
    requires n + |one| <= |all| && all[n..n + |one|] == one && |one| <= |tail|
    ensures var b := head + all[..n] + tail;
      b[..|head| + n] + one + b[|head| + n + |one|..] == head + all[..n + |one|] + tail[|one|..]
  {
    assert all[..n + |one|] == all[..n] + one;
  }

  lemma PackedStep(entries: seq<u64>, i: nat)
    requires i < |entries| <= JCAP
    ensures var b := Packed(entries, i);
      b[..32 + i * 8] + ToLe(entries[i], 8) + b[32 + i * 8 + 8..] == Packed(entries, i + 1)
  {
    EntryAt(entries, i);
    var tail: seq<u8> := seq(CTRL_BYTES - 32 - 8 * i, _ => 0);
    PackOne(seq(32, _ => 0), EntryBytes(entries), 8 * i, ToLe(entries[i], 8), tail);
    assert tail[8..] == seq(CTRL_BYTES - 32 - 8 * (i + 1), _ => 0);
  }

  lemma HeaderOverPacked(entries: seq<u64>, txid: u64, state: u32)
    requires |entries| <= JCAP
    ensures Header(entries, txid, state) + Packed(entries, |entries|)[32..] == Render(entries, txid, state)
  {
    var all := EntryBytes(entries);
    assert all[..8 * |entries|] == all;
    assert Packed(entries, |entries|)[32..] == all + seq(CTRL_BYTES - 32 - 8 * |entries|, _ => 0);
  }

  /** Render the four control pages in a zeroed buffer. */
  method RenderCtrl(entries: seq<u64>, txid: u64, state: u32) returns (r: CtrlBuf)
    requires |entries| <= JCAP
    ensures r == Render(entries, txid, state)
  {
    var buf := new u8[CTRL_BYTES](_ => 0);
    assert buf[..] == Packed(entries, 0);
    for i := 0 to |entries|
      invariant buf[..] == Packed(entries, i)
    {
      PutBytes(buf, HEADER_LEN + i * 8, ToLe(entries[i], 8));
      PackedStep(entries, i);
    }
    PutBytes(buf, 0, Header(entries, txid, state));
    HeaderOverPacked(entries, txid, state);
    r := buf[..];
  }
}
