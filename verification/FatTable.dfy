/**
 The file allocation table: how the FAT specification ("FAT Data Structure") packs entries of 12, 16 and
 32 bits into bytes, and how `FATEntryVal` of `fs/inode.c` reads one entry back.
 */
module FatTable {

  type Byte = x: int | 0 <= x < 256

  /** The medium, byte by byte; sectors have 512 bytes, `read_super` insists on that. */
  type Medium = nat -> Byte

  const SECTOR: nat := 512

  datatype Type = Fat12 | Fat16 | Fat32

  /** The fields of the super block that reading uses. */
  datatype Super = Super(base: nat, resvdseccnt: nat, clusterSize: nat, dataFirstSec: nat, kind: Type)

  /** `get_block`. */
  function GetBlock(d: Medium, sector: nat, size: nat): (r: seq<Byte>)
    ensures |r| == size && forall i :: 0 <= i < size ==> r[i] == d(sector * SECTOR + i)
  {
    seq(size, i requires 0 <= i < size => d(sector * SECTOR + i))
  }

  // ---------- packing, as the specification defines it ----------

  function EntryBits(k: Type): nat {
    match k case Fat12 => 12 case Fat16 => 16 case Fat32 => 32
  }

  predicate Table(k: Type, t: seq<nat>) {
    forall i :: 0 <= i < |t| ==> t[i] < match k case Fat12 => 0x1000 case Fat16 => 0x1_0000 case Fat32 => 0x1_0000_0000
  }

  /** Little-endian bytes of a number. */
  function Bytes2(x: nat): seq<Byte> {
    [x % 256, x / 256 % 256]
  }

  function Bytes3(x: nat): seq<Byte> {
    [x % 256, x / 256 % 256, x / 0x1_0000 % 256]
  }

  function Bytes4(x: nat): seq<Byte> {
    Bytes2(x % 0x1_0000) + Bytes2(x / 0x1_0000)
  }

  /** Two 12-bit entries share three bytes. */
  function Pack(k: Type, t: seq<nat>): seq<Byte>
    requires Table(k, t)
    decreases |t|
  {
    match k
    case Fat12 =>
      if |t| == 0 then []
      else if |t| == 1 then Bytes2(t[0])
      else Bytes3(t[0] + 0x1000 * t[1]) + Pack(k, t[2..])
    case Fat16 => if t == [] then [] else Bytes2(t[0]) + Pack(k, t[1..])
    case Fat32 => if t == [] then [] else Bytes4(t[0]) + Pack(k, t[1..])
  }

  // ---------- unpacking, as fs/inode.c does it ----------

  function FatOffset(k: Type, n: nat): nat {
    match k
    case Fat12 => n + n / 2
    case Fat16 => n * 2
    case Fat32 => n * 4
  }

  function Word16(b: seq<Byte>, o: nat): nat
    requires o + 1 < |b|
  {
    b[o] as int + 256 * b[o + 1] as int
  }

  /** Lines 83-98: the value found at byte `o` of `buf` for entry `n`. */
  function EntryAt(k: Type, buf: seq<Byte>, o: nat, n: nat): nat
    requires o + (if k.Fat32? then 3 else 1) < |buf|
  {
    match k
    case Fat12 => if n % 2 == 1 then Word16(buf, o) / 16 else Word16(buf, o) % 0x1000
    case Fat16 => Word16(buf, o)
    case Fat32 => (Word16(buf, o) + 0x1_0000 * Word16(buf, o + 2)) % 0x1000_0000
  }

  /** `FATEntryVal`: two sectors are fetched, so an entry that straddles a sector boundary is complete. */
  function EntryVal(d: Medium, sb: Super, n: nat): nat {
    var offset := FatOffset(sb.kind, n);
    EntryAt(sb.kind, GetBlock(d, sb.resvdseccnt + offset / SECTOR + sb.base, 1024), offset % SECTOR, n)
  }

  /** `eeof`. */
  predicate EndOfChain(k: Type, val: nat) {
    match k
    case Fat12 => val >= 0xFF8
    case Fat16 => val >= 0xFFF8
    case Fat32 => val >= 0xFFF_FFF8
  }

  /** The end marks are the top eight values an entry can have, of 12, 16 or 28 bits. */
  lemma EndMarksAre(val: nat)
    ensures val < 0x1000 ==> (EndOfChain(Fat12, val) <==> val + 8 >= 0x1000)
    ensures val < 0x1_0000 ==> (EndOfChain(Fat16, val) <==> val + 8 >= 0x1_0000)
    ensures val < 0x1000_0000 ==> (EndOfChain(Fat32, val) <==> val + 8 >= 0x1000_0000)
  {
  }

  // ---------- decoding what was packed ----------

  lemma Bytes2Value(x: nat)
    requires x < 0x1_0000
    ensures Word16(Bytes2(x), 0) == x
  {
  }

  /** Two 12-bit entries `a` and `b` in three bytes: each is half of an overlapping 16-bit word. */
  lemma Bytes3Value(a: nat, b: nat)
    requires a < 0x1000 && b < 0x1000
    ensures Word16(Bytes3(a + 0x1000 * b), 0) % 0x1000 == a && Word16(Bytes3(a + 0x1000 * b), 1) / 16 == b
  {
    var a0, a1, b0, b1 := a % 256, a / 256, b % 16, b / 16;
    var x := a + 0x1000 * b;
    assert x == 256 * (a1 + 16 * b0 + 256 * b1) + a0;
    ThreeBytes(x, a0, a1 + 16 * b0, b1);
    assert Word16(Bytes3(x), 0) == a + 0x1000 * b0;
    assert Word16(Bytes3(x), 1) == a1 + 16 * b;
  }

  lemma ThreeBytes(x: nat, p: nat, q: nat, r: nat)
    requires p < 256 && q < 256 && r < 256 && x == 256 * (q + 256 * r) + p
    ensures Bytes3(x) == [p, q, r]
  {
    assert x / 256 == q + 256 * r;
    assert x / 0x1_0000 == r;
  }

  lemma Bytes4Value(x: nat)
    requires x < 0x1_0000_0000
    ensures Word16(Bytes4(x), 0) + 0x1_0000 * Word16(Bytes4(x), 2) == x
  {
    Bytes2Value(x % 0x1_0000);
    Bytes2Value(x / 0x1_0000);
  }

  /** What an entry means: all of it, or the low 28 bits for FAT32. */
  function EntryMeaning(k: Type, e: nat): nat {
    if k.Fat32? then e % 0x1000_0000 else e
  }

  predicate Decodes(k: Type, t: seq<nat>, n: nat)
    requires Table(k, t) && n < |t|
  {
    var p, o := Pack(k, t), FatOffset(k, n);
    o + (if k.Fat32? then 3 else 1) < |p| && EntryAt(k, p, o, n) == EntryMeaning(k, t[n])
  }

  /** Reading behind a prefix of `m` bytes. */
  lemma WordBehind(a: seq<Byte>, b: seq<Byte>, o: nat)
    requires o + 1 < |b|
    ensures Word16(a + b, |a| + o) == Word16(b, o)
  {
  }

  /** The bytes looked at for a 12-bit entry hold that entry. */
  lemma {:induction false} Pack12At(t: seq<nat>, n: nat)
    requires Table(Fat12, t) && n < |t|
    ensures Decodes(Fat12, t, n)
    decreases |t|
  {
    if |t| == 1 {
      Bytes2Value(t[0]);
    } else {
      var h := Bytes3(t[0] + 0x1000 * t[1]);
      if n >= 2 {
        Pack12At(t[2..], n - 2);
        assert FatOffset(Fat12, n) == 3 + FatOffset(Fat12, n - 2) && n % 2 == (n - 2) % 2;
        WordBehind(h, Pack(Fat12, t[2..]), FatOffset(Fat12, n - 2));
      } else {
        Bytes3Value(t[0], t[1]);
        assert Pack(Fat12, t)[..3] == h;
      }
    }
  }

  lemma {:induction false} Pack16At(t: seq<nat>, n: nat)
    requires Table(Fat16, t) && n < |t|
    ensures Decodes(Fat16, t, n)
    decreases |t|
  {
    Bytes2Value(t[0]);
    if n > 0 {
      Pack16At(t[1..], n - 1);
      WordBehind(Bytes2(t[0]), Pack(Fat16, t[1..]), FatOffset(Fat16, n - 1));
    }
  }

  lemma {:induction false} Pack32At(t: seq<nat>, n: nat)
    requires Table(Fat32, t) && n < |t|
    ensures Decodes(Fat32, t, n)
    decreases |t|
  {
    Bytes4Value(t[0]);
    var h, rest := Bytes4(t[0]), Pack(Fat32, t[1..]);
    if n > 0 {
      var o := FatOffset(Fat32, n - 1);
      Pack32At(t[1..], n - 1);
      WordBehind(h, rest, o);
      WordBehind(h, rest, o + 2);
    }
  }

  /** The medium carries table `t` where the super block says the first FAT is. */
  ghost predicate Holds(d: Medium, sb: Super, t: seq<nat>) {
    && Table(sb.kind, t)
    && forall i :: 0 <= i < |Pack(sb.kind, t)| ==> d((sb.base + sb.resvdseccnt) * SECTOR + i) == Pack(sb.kind, t)[i]
  }

  /** Byte `j` behind the offset, as found in the fetched buffer. */
  lemma FetchedByte(d: Medium, sb: Super, t: seq<nat>, offset: nat, j: nat)
    requires Holds(d, sb, t) && j < 4 && offset + j < |Pack(sb.kind, t)|
    ensures GetBlock(d, sb.resvdseccnt + offset / SECTOR + sb.base, 1024)[offset % SECTOR + j] == Pack(sb.kind, t)[offset + j]
  {
    var q, r := offset / SECTOR, offset % SECTOR;
    assert offset == q * SECTOR + r;
    assert (sb.resvdseccnt + q + sb.base) * SECTOR + (r + j) == (sb.base + sb.resvdseccnt) * SECTOR + (offset + j);
  }

  lemma FetchedWord(d: Medium, sb: Super, t: seq<nat>, offset: nat, j: nat)
    requires Holds(d, sb, t) && j < 3 && offset + j + 1 < |Pack(sb.kind, t)|
    ensures Word16(GetBlock(d, sb.resvdseccnt + offset / SECTOR + sb.base, 1024), offset % SECTOR + j)
            == Word16(Pack(sb.kind, t), offset + j)
  {
    FetchedByte(d, sb, t, offset, j);
    FetchedByte(d, sb, t, offset, j + 1);
  }

  /** For every table and every entry, `FATEntryVal` returns that entry, the low 28 bits for FAT32. */
  lemma EntryDecodes(d: Medium, sb: Super, t: seq<nat>, n: nat)
    requires Holds(d, sb, t) && n < |t|
    ensures EntryVal(d, sb, n) == EntryMeaning(sb.kind, t[n])
    ensures EntryVal(d, sb, n) == if sb.kind.Fat32? then t[n] % 0x1000_0000 else t[n]
  {
    match sb.kind {
      case Fat12 => Pack12At(t, n);
      case Fat16 => Pack16At(t, n);
      case Fat32 => Pack32At(t, n);
    }
    FetchedEntry(d, sb, t, n, FatOffset(sb.kind, n));
  }

  lemma FetchedEntry(d: Medium, sb: Super, t: seq<nat>, n: nat, o: nat)
    requires Holds(d, sb, t) && o + (if sb.kind.Fat32? then 3 else 1) < |Pack(sb.kind, t)|
    ensures EntryAt(sb.kind, GetBlock(d, sb.resvdseccnt + o / SECTOR + sb.base, 1024), o % SECTOR, n)
            == EntryAt(sb.kind, Pack(sb.kind, t), o, n)
  {
    FetchedWord(d, sb, t, o, 0);
    if sb.kind.Fat32? {
      FetchedWord(d, sb, t, o, 2);
    }
  }

  /** The first bytes of a FAT12 and of a FAT32 as they look on a disk. */
  lemma FirstEntriesExample()
    ensures var b := [0xF0, 0xFF, 0xFF, 0x03, 0x40, 0x00];
            && EntryAt(Fat12, b, 0, 0) == 0xFF0 && EntryAt(Fat12, b, 1, 1) == 0xFFF
            && EntryAt(Fat12, b, 3, 2) == 3 && EntryAt(Fat12, b, 4, 3) == 4
    ensures EntryAt(Fat32, [0x03, 0x02, 0x01, 0xF0], 0, 2) == 0x1_0203
  {
  }
}
