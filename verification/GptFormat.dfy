/** The header of a GUID partition table as section 5.3.2 of the UEFI Specification lays it out, and
    what `gpt_init` of src/fs/gpt.c makes of it, field by field. */
module GptFormat {
  import opened BitMath
  import opened Crc
  import opened Gpt
  import Heap
  import HeapLaws
  import FreeLists
  import Polynomials

  /** The fields in their order.  Numbers are stored with the lowest byte first. */
  datatype Header = Header(
    signature: seq<Byte>,
    revision: nat,
    headerSize: nat,
    headerCrc: nat,
    reserved: nat,
    myLba: nat,
    alternateLba: nat,
    firstUsableLba: nat,
    lastUsableLba: nat,
    diskGuid: seq<Byte>,
    partitionEntryLba: nat,
    numberOfEntries: nat,
    sizeOfEntry: nat,
    entryArrayCrc: nat)

  /** The fields have their sizes. */
  predicate Fits(h: Header) {
    && |h.signature| == 8 && h.revision < U32 && h.headerSize < U32 && h.headerCrc < U32 && h.reserved < U32
    && h.myLba < U64 && h.alternateLba < U64 && h.firstUsableLba < U64 && h.lastUsableLba < U64
    && |h.diskGuid| == 16 && h.partitionEntryLba < U64
    && h.numberOfEntries < U32 && h.sizeOfEntry < U32 && h.entryArrayCrc < U32
  }

  /** The n bytes of a number, the lowest first. */
  function LittleEndian(v: nat, n: nat): (x: seq<Byte>)
    ensures |x| == n
    decreases n
  {
    if n == 0 then [] else [v % 256] + LittleEndian(v / 256, n - 1)
  }

  function Ascii(text: string): (x: seq<Byte>)
    requires forall i :: 0 <= i < |text| ==> text[i] as nat < 128
    ensures |x| == |text|
  {
    if text == "" then [] else [text[0] as nat] + Ascii(text[1..])
  }

  const EFI_PART: string := "EFI PART"

  // The header in four parts, the second of which is the CRC field.

  function Head(h: Header): seq<Byte> {
    h.signature + (LittleEndian(h.revision, 4) + LittleEndian(h.headerSize, 4))
  }

  function Blocks(h: Header): seq<Byte> {
    LittleEndian(h.myLba, 8) + (LittleEndian(h.alternateLba, 8)
    + (LittleEndian(h.firstUsableLba, 8) + LittleEndian(h.lastUsableLba, 8)))
  }

  function Entries(h: Header): seq<Byte> {
    h.diskGuid + (LittleEndian(h.partitionEntryLba, 8) + (LittleEndian(h.numberOfEntries, 4)
    + (LittleEndian(h.sizeOfEntry, 4) + LittleEndian(h.entryArrayCrc, 4))))
  }

  /** The header, followed by other bytes. */
  function Stored(h: Header, rest: seq<Byte>): (x: seq<Byte>)
    ensures Fits(h) ==> |x| == HEADER_SIZE + |rest|
  {
    Head(h) + (LittleEndian(h.headerCrc, 4) + (LittleEndian(h.reserved, 4) + (Blocks(h) + (Entries(h) + rest))))
  }

  function Encode(h: Header): (x: seq<Byte>)
    ensures Fits(h) ==> |x| == HEADER_SIZE
  {
    Stored(h, [])
  }

  /** A sector that starts with the header. */
  function SectorOf(h: Header, rest: seq<Byte>): Sector
    requires Fits(h) && |rest| == SECTOR_SIZE - HEADER_SIZE
  {
    Stored(h, rest)
  }

  /** The CRC of the header, which is computed with its own field zero. */
  function HeaderCrc(h: Header): nat {
    Crc32(Encode(h.(headerCrc := 0)))
  }

  /** The first field that is not as it must be. */
  function Status(h: Header): int {
    if h.signature != Ascii(EFI_PART) then -3
    else if h.revision != 0x0001_0000 then -4
    else if h.headerSize != |Encode(h)| then -5
    else if h.headerCrc != HeaderCrc(h) then -6
    else if h.myLba != 1 then -7
    else 0
  }

  // ----- numbers and their bytes

  lemma {:induction false} WordOfBytes(v: nat, n: nat)
    requires v < Pow2(8 * n)
    ensures Word(LittleEndian(v, n)) == v
    decreases n
  {
    if n > 0 {
      Pow2Of8();
      Pow2Add(8, 8 * (n - 1));
      QuotientBound(v, Pow2(8 * (n - 1)));
      WordOfBytes(v / 256, n - 1);
      assert LittleEndian(v, n)[1..] == LittleEndian(v / 256, n - 1);
    }
  }

  lemma QuotientBound(v: nat, p: nat)
    requires v < 256 * p
    ensures v / 256 < p
  {
  }

  lemma {:induction false} BytesOfWord(x: seq<Byte>)
    ensures LittleEndian(Word(x), |x|) == x
    decreases |x|
  {
    if x != [] {
      DivModUnique(Word(x), 256, Word(x[1..]), x[0]);
      BytesOfWord(x[1..]);
    }
  }

  lemma PowersOfFields()
    ensures Pow2(8 * 4) == U32 && Pow2(8 * 8) == U64
  {
    Pow2Of32();
    Pow2Add(32, 32);
  }

  lemma Narrow(v: nat)
    requires v < U32
    ensures Word(LittleEndian(v, 4)) == v
  {
    PowersOfFields();
    WordOfBytes(v, 4);
  }

  lemma Wide(v: nat)
    requires v < U64
    ensures Word(LittleEndian(v, 8)) == v
  {
    PowersOfFields();
    WordOfBytes(v, 8);
  }

  // ----- where the fields are

  /** The field at offset i, and what follows it. */
  lemma FieldAt(s: seq<Byte>, i: nat, j: nat, field: seq<Byte>, rest: seq<Byte>)
    requires i <= |s| && s[i..] == field + rest && j == i + |field|
    ensures j <= |s| && s[i..j] == field && s[j..] == rest
  {
    assert |s[i..]| == |field| + |rest|;
    assert s[i..j] == s[i..][..j - i];
    assert s[j..] == s[i..][j - i..];
  }

  lemma Joined(a: seq<Byte>, b: seq<Byte>, c: seq<Byte>)
    ensures (a + b) + c == a + (b + c)
  {
  }

  lemma HeadFields(h: Header, s: seq<Byte>, rest: seq<Byte>)
    requires Fits(h) && s == Head(h) + rest
    ensures |s| >= 16 && s[0..8] == h.signature && s[16..] == rest
    ensures s[8..12] == LittleEndian(h.revision, 4) && s[12..16] == LittleEndian(h.headerSize, 4)
  {
    var size := LittleEndian(h.headerSize, 4);
    Joined(h.signature, LittleEndian(h.revision, 4) + size, rest);
    Joined(LittleEndian(h.revision, 4), size, rest);
    assert s[0..] == s;
    FieldAt(s, 0, 8, h.signature, LittleEndian(h.revision, 4) + (size + rest));
    FieldAt(s, 8, 12, LittleEndian(h.revision, 4), size + rest);
    FieldAt(s, 12, 16, size, rest);
  }

  lemma BlockFields(h: Header, s: seq<Byte>, i: nat, rest: seq<Byte>)
    requires Fits(h) && i == 24 <= |s| && s[i..] == Blocks(h) + rest
    ensures |s| >= 56 && s[24..32] == LittleEndian(h.myLba, 8) && s[32..40] == LittleEndian(h.alternateLba, 8)
    ensures s[40..48] == LittleEndian(h.firstUsableLba, 8) && s[48..56] == LittleEndian(h.lastUsableLba, 8)
    ensures s[56..] == rest
  {
    var a, b := LittleEndian(h.myLba, 8), LittleEndian(h.alternateLba, 8);
    var c, d := LittleEndian(h.firstUsableLba, 8), LittleEndian(h.lastUsableLba, 8);
    Joined(a, b + (c + d), rest);
    Joined(b, c + d, rest);
    Joined(c, d, rest);
    FieldAt(s, 24, 32, a, b + (c + (d + rest)));
    FieldAt(s, 32, 40, b, c + (d + rest));
    FieldAt(s, 40, 48, c, d + rest);
    FieldAt(s, 48, 56, d, rest);
  }

  lemma EntryFields(h: Header, s: seq<Byte>, i: nat, rest: seq<Byte>)
    requires Fits(h) && i == 56 <= |s| && s[i..] == Entries(h) + rest
    ensures |s| >= 92 && s[56..72] == h.diskGuid && s[72..80] == LittleEndian(h.partitionEntryLba, 8)
    ensures s[80..84] == LittleEndian(h.numberOfEntries, 4) && s[84..88] == LittleEndian(h.sizeOfEntry, 4)
    ensures s[88..92] == LittleEndian(h.entryArrayCrc, 4) && s[92..] == rest
  {
    var a, b, c := h.diskGuid, LittleEndian(h.partitionEntryLba, 8), LittleEndian(h.numberOfEntries, 4);
    var d, e := LittleEndian(h.sizeOfEntry, 4), LittleEndian(h.entryArrayCrc, 4);
    Joined(a, b + (c + (d + e)), rest);
    Joined(b, c + (d + e), rest);
    Joined(c, d + e, rest);
    Joined(d, e, rest);
    FieldAt(s, 56, 72, a, b + (c + (d + (e + rest))));
    FieldAt(s, 72, 80, b, c + (d + (e + rest)));
    FieldAt(s, 80, 84, c, d + (e + rest));
    FieldAt(s, 84, 88, d, e + rest);
    FieldAt(s, 88, 92, e, rest);
  }

  lemma CrcFields(h: Header, s: seq<Byte>, i: nat, rest: seq<Byte>)
    requires Fits(h) && i == 16 <= |s|
    requires s[i..] == LittleEndian(h.headerCrc, 4) + (LittleEndian(h.reserved, 4) + rest)
    ensures |s| >= 24 && s[16..20] == LittleEndian(h.headerCrc, 4) && s[20..24] == LittleEndian(h.reserved, 4)
    ensures s[24..] == rest
  {
    FieldAt(s, 16, 20, LittleEndian(h.headerCrc, 4), LittleEndian(h.reserved, 4) + rest);
    FieldAt(s, 20, 24, LittleEndian(h.reserved, 4), rest);
  }

  /** Where the numbers of the header are. */
  ghost predicate Holds(h: Header, s: seq<Byte>)
    requires |s| >= HEADER_SIZE
  {
    && s[0..8] == h.signature && Word(s[8..12]) == h.revision && Word(s[12..16]) == h.headerSize
    && Word(s[16..20]) == h.headerCrc && Word(s[20..24]) == h.reserved
    && Word(s[24..32]) == h.myLba && Word(s[32..40]) == h.alternateLba
    && Word(s[40..48]) == h.firstUsableLba && Word(s[48..56]) == h.lastUsableLba
    && s[56..72] == h.diskGuid && Word(s[72..80]) == h.partitionEntryLba
    && Word(s[80..84]) == h.numberOfEntries && Word(s[84..88]) == h.sizeOfEntry
    && Word(s[88..92]) == h.entryArrayCrc
  }

  lemma StoredFields(h: Header, s: seq<Byte>, rest: seq<Byte>)
    requires Fits(h) && s == Stored(h, rest)
    ensures |s| >= HEADER_SIZE && Holds(h, s) && s[HEADER_SIZE..] == rest
  {
    HeadFields(h, s, LittleEndian(h.headerCrc, 4)
                     + (LittleEndian(h.reserved, 4) + (Blocks(h) + (Entries(h) + rest))));
    CrcFields(h, s, 16, Blocks(h) + (Entries(h) + rest));
    BlockFields(h, s, 24, Entries(h) + rest);
    EntryFields(h, s, 56, rest);
    NarrowFields(h);
    WideFields(h);
  }

  lemma NarrowFields(h: Header)
    requires Fits(h)
    ensures Word(LittleEndian(h.revision, 4)) == h.revision && Word(LittleEndian(h.headerSize, 4)) == h.headerSize
    ensures Word(LittleEndian(h.headerCrc, 4)) == h.headerCrc && Word(LittleEndian(h.reserved, 4)) == h.reserved
    ensures Word(LittleEndian(h.numberOfEntries, 4)) == h.numberOfEntries
    ensures Word(LittleEndian(h.sizeOfEntry, 4)) == h.sizeOfEntry
    ensures Word(LittleEndian(h.entryArrayCrc, 4)) == h.entryArrayCrc
  {
    Narrow(h.revision);
    Narrow(h.headerSize);
    Narrow(h.headerCrc);
    Narrow(h.reserved);
    Narrow(h.numberOfEntries);
    Narrow(h.sizeOfEntry);
    Narrow(h.entryArrayCrc);
  }

  lemma WideFields(h: Header)
    requires Fits(h)
    ensures Word(LittleEndian(h.myLba, 8)) == h.myLba && Word(LittleEndian(h.alternateLba, 8)) == h.alternateLba
    ensures Word(LittleEndian(h.firstUsableLba, 8)) == h.firstUsableLba
    ensures Word(LittleEndian(h.lastUsableLba, 8)) == h.lastUsableLba
    ensures Word(LittleEndian(h.partitionEntryLba, 8)) == h.partitionEntryLba
  {
    Wide(h.myLba);
    Wide(h.alternateLba);
    Wide(h.firstUsableLba);
    Wide(h.lastUsableLba);
    Wide(h.partitionEntryLba);
  }

  // ----- every sector starts with a header

  function Decode(s: seq<Byte>): Header
    requires |s| >= HEADER_SIZE
  {
    Header(s[0..8], Word(s[8..12]), Word(s[12..16]), Word(s[16..20]), Word(s[20..24]), Word(s[24..32]),
           Word(s[32..40]), Word(s[40..48]), Word(s[48..56]), s[56..72], Word(s[72..80]), Word(s[80..84]),
           Word(s[84..88]), Word(s[88..92]))
  }

  lemma NarrowBytes(s: seq<Byte>, i: nat, j: nat)
    requires i <= j <= |s| && j == i + 4
    ensures Word(s[i..j]) < U32 && s[i..] == LittleEndian(Word(s[i..j]), 4) + s[j..]
  {
    PowersOfFields();
    WordBound(s[i..j]);
    BytesOfWord(s[i..j]);
  }

  lemma WideBytes(s: seq<Byte>, i: nat, j: nat)
    requires i <= j <= |s| && j == i + 8
    ensures Word(s[i..j]) < U64 && s[i..] == LittleEndian(Word(s[i..j]), 8) + s[j..]
  {
    PowersOfFields();
    WordBound(s[i..j]);
    BytesOfWord(s[i..j]);
  }

  lemma HeadBytes(s: seq<Byte>, h: Header)
    requires |s| >= HEADER_SIZE && h == Decode(s)
    ensures |h.signature| == 8 && h.revision < U32 && h.headerSize < U32 && s == Head(h) + s[16..]
  {
    NarrowBytes(s, 8, 12);
    NarrowBytes(s, 12, 16);
    var a, b, c := h.signature, LittleEndian(h.revision, 4), LittleEndian(h.headerSize, 4);
    assert s == a + s[8..];
    Joined(a, b + c, s[16..]);
    Joined(b, c, s[16..]);
  }

  lemma BlockBytes(s: seq<Byte>, h: Header, i: nat)
    requires |s| >= HEADER_SIZE && h == Decode(s) && i == 24
    ensures h.myLba < U64 && h.alternateLba < U64 && h.firstUsableLba < U64 && h.lastUsableLba < U64
    ensures s[i..] == Blocks(h) + s[56..]
  {
    WideBytes(s, 24, 32);
    WideBytes(s, 32, 40);
    WideBytes(s, 40, 48);
    WideBytes(s, 48, 56);
    var a, b := LittleEndian(h.myLba, 8), LittleEndian(h.alternateLba, 8);
    var c, d := LittleEndian(h.firstUsableLba, 8), LittleEndian(h.lastUsableLba, 8);
    Joined(a, b + (c + d), s[56..]);
    Joined(b, c + d, s[56..]);
    Joined(c, d, s[56..]);
  }

  lemma EntryBytes(s: seq<Byte>, h: Header, i: nat)
    requires |s| >= HEADER_SIZE && h == Decode(s) && i == 56
    ensures |h.diskGuid| == 16 && h.partitionEntryLba < U64
    ensures h.numberOfEntries < U32 && h.sizeOfEntry < U32 && h.entryArrayCrc < U32
    ensures s[i..] == Entries(h) + s[HEADER_SIZE..]
  {
    assert s[56..] == h.diskGuid + s[72..];
    EntryNumbers(s, h, 72);
    EntriesJoined(h.diskGuid, LittleEndian(h.partitionEntryLba, 8), LittleEndian(h.numberOfEntries, 4),
                  LittleEndian(h.sizeOfEntry, 4), LittleEndian(h.entryArrayCrc, 4), s[HEADER_SIZE..]);
  }

  lemma EntryNumbers(s: seq<Byte>, h: Header, i: nat)
    requires |s| >= HEADER_SIZE && h == Decode(s) && i == 72
    ensures h.partitionEntryLba < U64
    ensures h.numberOfEntries < U32 && h.sizeOfEntry < U32 && h.entryArrayCrc < U32
    ensures s[i..] == LittleEndian(h.partitionEntryLba, 8) + (LittleEndian(h.numberOfEntries, 4)
                      + (LittleEndian(h.sizeOfEntry, 4) + (LittleEndian(h.entryArrayCrc, 4) + s[HEADER_SIZE..])))
  {
    WideBytes(s, 72, 80);
    NarrowBytes(s, 80, 84);
    NarrowBytes(s, 84, 88);
    NarrowBytes(s, 88, 92);
  }

  lemma EntriesJoined(a: seq<Byte>, b: seq<Byte>, c: seq<Byte>, d: seq<Byte>, e: seq<Byte>, rest: seq<Byte>)
    ensures (a + (b + (c + (d + e)))) + rest == a + (b + (c + (d + (e + rest))))
  {
    Joined(a, b + (c + (d + e)), rest);
    Joined(b, c + (d + e), rest);
    Joined(c, d + e, rest);
    Joined(d, e, rest);
  }

  /** So what is proved about all headers is proved about all sectors. */
  lemma DecodeThenEncode(s: seq<Byte>)
    requires |s| >= HEADER_SIZE
    ensures Fits(Decode(s)) && Stored(Decode(s), s[HEADER_SIZE..]) == s
  {
    var h := Decode(s);
    HeadBytes(s, h);
    NarrowBytes(s, 16, 20);
    NarrowBytes(s, 20, 24);
    BlockBytes(s, h, 24);
    EntryBytes(s, h, 56);
  }

  /** And the other way round: the bytes of a header determine it. */
  lemma EncodeThenDecode(h: Header, rest: seq<Byte>)
    requires Fits(h)
    ensures Decode(Stored(h, rest)) == h
  {
    StoredFields(h, Stored(h, rest), rest);
  }

  // ----- the checks

  lemma StoredIsEncoded(h: Header, rest: seq<Byte>)
    ensures Stored(h, rest) == Encode(h) + rest
  {
    var crc, reserved := LittleEndian(h.headerCrc, 4), LittleEndian(h.reserved, 4);
    assert Entries(h) + [] == Entries(h);
    Joined(Head(h), crc + (reserved + (Blocks(h) + Entries(h))), rest);
    Joined(crc, reserved + (Blocks(h) + Entries(h)), rest);
    Joined(reserved, Blocks(h) + Entries(h), rest);
    Joined(Blocks(h), Entries(h), rest);
  }

  /** Zeroing the CRC field of the sector is zeroing it in the header. */
  lemma ZeroedIsStored(h: Header, rest: seq<Byte>)
    requires Fits(h) && |rest| == SECTOR_SIZE - HEADER_SIZE
    ensures Zeroed(SectorOf(h, rest)) == SectorOf(h.(headerCrc := 0), rest)
    ensures Zeroed(SectorOf(h, rest))[..HEADER_SIZE] == Encode(h.(headerCrc := 0))
  {
    var s, z := SectorOf(h, rest), h.(headerCrc := 0);
    var behind := LittleEndian(h.reserved, 4) + (Blocks(h) + (Entries(h) + rest));
    HeadFields(h, s, LittleEndian(h.headerCrc, 4) + behind);
    FieldAt(s, 16, 20, LittleEndian(h.headerCrc, 4), behind);
    ZeroBytes(4);
    assert Head(z) == Head(h) == s[..16];
    Joined(s[..16], [0, 0, 0, 0], s[20..]);
    StoredIsEncoded(z, rest);
  }

  lemma ZeroBytes(n: nat)
    requires n == 4
    ensures LittleEndian(0, n) == [0, 0, 0, 0]
  {
    assert LittleEndian(0, 2) == [0, 0];
  }

  lemma SignatureValue(x: seq<Byte>)
    requires |x| == 8
    ensures Word(x) == SIGNATURE <==> x == Ascii(EFI_PART)
  {
    AsciiValue();
    if Word(x) == SIGNATURE {
      WordInjective(x, Ascii(EFI_PART));
    }
  }

  lemma WordStep(b: Byte, x: seq<Byte>)
    ensures Word([b] + x) == b + 256 * Word(x)
  {
    assert ([b] + x)[1..] == x;
  }

  lemma AsciiStep(c: char, text: string)
    requires c as nat < 128 && forall i :: 0 <= i < |text| ==> text[i] as nat < 128
    ensures Word(Ascii([c] + text)) == c as nat + 256 * Word(Ascii(text))
  {
    assert ([c] + text)[1..] == text;
    WordStep(c as nat, Ascii(text));
  }

  lemma PartValue()
    ensures Word(Ascii(" PART")) == 0x54_5241_5020
  {
    AsciiStep('T', "");
    AsciiStep('R', "T");
    AsciiStep('A', "RT");
    AsciiStep('P', "ART");
    AsciiStep(' ', "PART");
  }

  lemma AsciiValue()
    ensures Word(Ascii(EFI_PART)) == SIGNATURE
  {
    PartValue();
    AsciiStep('I', " PART");
    AsciiStep('F', "I PART");
    AsciiStep('E', "FI PART");
  }

  /** THE CHECKS ARE THOSE OF THE FORMAT: whatever the fields are, the status is that of the first
      field that is not as it must be. */
  lemma VerdictIsStatus(h: Header, rest: seq<Byte>)
    requires Fits(h) && |rest| == SECTOR_SIZE - HEADER_SIZE
    ensures Verdict(SectorOf(h, rest)) == Status(h)
  {
    var s := SectorOf(h, rest);
    StoredFields(h, s, rest);
    SignatureValue(h.signature);
    ZeroedIsStored(h, rest);
  }

  /** The header with its CRC. */
  function Sealed(h: Header): Header {
    h.(headerCrc := HeaderCrc(h))
  }

  /** A header as the specification wants it. */
  predicate Standard(h: Header) {
    && Fits(h) && h.signature == Ascii(EFI_PART) && h.revision == 0x0001_0000
    && h.headerSize == HEADER_SIZE && h.myLba == 1
  }

  lemma SealedFits(h: Header)
    requires Fits(h)
    ensures Fits(Sealed(h))
  {
    Polynomials.CrcIsRemainder(Encode(h.(headerCrc := 0)));
  }

  /** ENCODE AND ACCEPT.  Every such header is accepted, and it is refused with the status of the field
      if one of the checked fields is anything else. */
  lemma StandardIsAccepted(h: Header, rest: seq<Byte>, wrong: Header)
    requires Standard(h) && |rest| == SECTOR_SIZE - HEADER_SIZE && Fits(wrong)
    ensures Fits(Sealed(h)) && Verdict(SectorOf(Sealed(h), rest)) == 0
    ensures wrong.signature != h.signature ==>
              Verdict(SectorOf(Sealed(h).(signature := wrong.signature), rest)) == -3
    ensures wrong.revision != h.revision ==>
              Verdict(SectorOf(Sealed(h).(revision := wrong.revision), rest)) == -4
    ensures wrong.headerSize != h.headerSize ==>
              Verdict(SectorOf(Sealed(h).(headerSize := wrong.headerSize), rest)) == -5
    ensures wrong.headerCrc != HeaderCrc(h) ==>
              Verdict(SectorOf(h.(headerCrc := wrong.headerCrc), rest)) == -6
    ensures wrong.myLba != 1 ==>
              var other := Sealed(h.(myLba := wrong.myLba));
              Fits(other) && Verdict(SectorOf(other, rest)) == -7
  {
    SealedFits(h);
    VerdictIsStatus(Sealed(h), rest);
    VerdictIsStatus(Sealed(h).(signature := wrong.signature), rest);
    VerdictIsStatus(Sealed(h).(revision := wrong.revision), rest);
    VerdictIsStatus(Sealed(h).(headerSize := wrong.headerSize), rest);
    VerdictIsStatus(h.(headerCrc := wrong.headerCrc), rest);
    SealedFits(h.(myLba := wrong.myLba));
    VerdictIsStatus(Sealed(h.(myLba := wrong.myLba)), rest);
  }

  /** The fields of the partition are those of the header. */
  ghost predicate Keeps(p: Partition, h: Header)
    reads p
  {
    && p.backupLba == h.alternateLba && p.firstUsableLba == h.firstUsableLba
    && p.lastUsableLba == h.lastUsableLba && p.diskGuid == h.diskGuid
    && p.partitionEntriesLba == h.partitionEntryLba && p.numPartitionEntries == h.numberOfEntries
    && p.partitionEntrySize == h.sizeOfEntry && p.crc32PartitionArray == h.entryArrayCrc
  }

  lemma FieldsAreKept(p: Partition, h: Header, s: Sector)
    requires p.Describes(s) && Holds(h, s)
    ensures Keeps(p, h)
  {
  }

  /** `gpt_init` on a disk with that header. */
  method InitOn(p: Partition, heap: Heap.Allocator, ghost h: Header, s: Sector, grant: nat -> nat,
                outside: nat -> FreeLists.Header) returns (status: int)
    requires Fits(h) && s == SectorOf(h, s[HEADER_SIZE..])
    requires heap.Valid() && Heap.OutsideOk(heap.arenas, heap.highestLevel, outside)
    modifies p, heap, heap.memBlocks
    ensures heap.Valid() && heap.Blocks() == old(heap.Blocks())
    ensures status == -1 || (status == Status(h) && Keeps(p, h))
    ensures status == -1 <==> HeapLaws.NoRoom(old(heap.arenas), old(heap.LiveBlocks()), SECTOR_SIZE)
  {
    VerdictIsStatus(h, s[HEADER_SIZE..]);
    StoredFields(h, s, s[HEADER_SIZE..]);
    status := p.Init(heap, Data(s), grant, outside);
    if status != -1 {
      FieldsAreKept(p, h, s);
    }
  }
}
