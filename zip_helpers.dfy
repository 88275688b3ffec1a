/**
  The pure part of the archive helpers: how an entry's metadata record is formed
  (compression method label, CRC as eight hex digits, directory flag) and how an
  entry is found by exact name. Reading the archive itself is not modelled; an
  archive is the sequence of its entries in central-directory order.
 */
module ZipHelpers {
  import opened Wrappers
  import opened Numerals

  /** One archive entry; `contents` is its data decoded as UTF-8. */
  datatype ZipEntry = ZipEntry(
    fileName: string,
    compressedSize: nat,
    uncompressedSize: nat,
    compressionMethod: nat,
    crc32: Option<int>,
    contents: string)

  /** The metadata record listed for an entry. */
  datatype EntryMeta = EntryMeta(
    name: string,
    compressedSize: nat,
    uncompressedSize: nat,
    methodLabel: string,
    crc32: Option<string>,
    isDirectory: bool)

  const TwoTo32: int := 0x1_0000_0000

  /** Label of a compression method: the two named ones, else the code in decimal. */
  function MethodLabel(code: nat): string
  {
    if code == 0 then "store" else if code == 8 then "deflate" else Decimal(code)
  }

  /** Different codes never share a label. */
  lemma MethodLabelInjective(a: nat, b: nat)
    requires MethodLabel(a) == MethodLabel(b)
    ensures a == b
  {
    if a != 0 && a != 8 && b != 0 && b != 8 {
      DecimalInjective(a, b);
    }
  }

  /** The CRC as exactly eight lower-case hex digits of its value modulo 2^32 (`>>> 0`),
      or nothing when the entry has no numeric CRC. */
  function ToHex8(crc: Option<int>): (r: Option<string>)
    ensures r.Some? <==> crc.Some?
    ensures r.Some? ==>
      |r.value| == 8 && AllDigits(r.value, 16) && FromBase(r.value, 16) == crc.value % TwoTo32
  {
    if crc.None? then None
    else
      var u := crc.value % TwoTo32;
      var digits := ToBase(u, 16);
      assert Pow(16, 8) == TwoTo32;
      ToBaseLength(u, 16, 8);
      var h := PadStart(digits, 8, '0');
      FromToBase(u, 16);
      FromBaseLeadingZeros(8 - |digits|, digits, 16);
      Some(h)
  }

  /** Two CRCs print the same exactly when they agree modulo 2^32. */
  lemma ToHex8Injective(a: int, b: int)
    ensures ToHex8(Some(a)) == ToHex8(Some(b)) <==> a % TwoTo32 == b % TwoTo32
  {
    if a % TwoTo32 == b % TwoTo32 {
      assert ToHex8(Some(a)) == ToHex8(Some(b));
    }
  }

  /** A name denotes a directory exactly when it ends in '/'. */
  predicate IsDirectoryName(name: string)
  {
    |name| > 0 && name[|name| - 1] == '/'
  }

  function MetaOf(e: ZipEntry): EntryMeta
  {
    EntryMeta(e.fileName, e.compressedSize, e.uncompressedSize,
              MethodLabel(e.compressionMethod), ToHex8(e.crc32), IsDirectoryName(e.fileName))
  }

  /** The metadata listing: one record per entry, in archive order. */
  function ReadMetadata(entries: seq<ZipEntry>): (r: seq<EntryMeta>)
    ensures |r| == |entries|
    ensures forall i :: 0 <= i < |r| ==>
      r[i].name == entries[i].fileName
      && r[i].compressedSize == entries[i].compressedSize
      && r[i].uncompressedSize == entries[i].uncompressedSize
      && r[i].crc32 == ToHex8(entries[i].crc32)
      && (r[i].isDirectory <==> |r[i].name| > 0 && r[i].name[|r[i].name| - 1] == '/')
      && (r[i].crc32.Some? <==> entries[i].crc32.Some?)
      && (r[i].crc32.Some? ==> |r[i].crc32.value| == 8 && AllDigits(r[i].crc32.value, 16))
      && r[i].methodLabel == MethodLabel(entries[i].compressionMethod)
  {
    seq(|entries|, i requires 0 <= i < |entries| => MetaOf(entries[i]))
  }

  /** The names listing, in archive order. */
  function ListNames(entries: seq<ZipEntry>): (r: seq<string>)
    ensures |r| == |entries| && forall i :: 0 <= i < |r| ==> r[i] == ReadMetadata(entries)[i].name
  {
    seq(|entries|, i requires 0 <= i < |entries| => entries[i].fileName)
  }

  /** The first entry whose name equals `name` exactly, or the error "entry not found". */
  function FindEntry(entries: seq<ZipEntry>, name: string): (r: Result<nat, string>)
    ensures r.Success? ==>
      r.value < |entries| && entries[r.value].fileName == name
      && (forall j :: 0 <= j < r.value ==> entries[j].fileName != name)
    ensures r.Failure? ==>
      r.error == "entry not found" && (forall j :: 0 <= j < |entries| ==> entries[j].fileName != name)
  {
    if |entries| == 0 then Failure("entry not found")
    else if entries[0].fileName == name then Success(0)
    else match FindEntry(entries[1..], name)
      case Success(k) => Success(k + 1)
      case Failure(e) => Failure(e)
  }

  /** Text of the named entry. */
  function ReadEntryText(entries: seq<ZipEntry>, name: string): (r: Result<string, string>)
    ensures r.Success? <==> exists j :: 0 <= j < |entries| && entries[j].fileName == name
    ensures r.Success? ==>
      (exists j :: (0 <= j < |entries| && entries[j].fileName == name && r.value == entries[j].contents
                   && forall i :: 0 <= i < j ==> entries[i].fileName != name))
    ensures r.Failure? ==> r.error == "entry not found"
  {
    match FindEntry(entries, name)
    case Success(k) => Success(entries[k].contents)
    case Failure(e) => Failure(e)
  }

  /** What extracting an entry does to the destination path. */
  datatype Extraction = MakeDirectory | WriteFile(contents: string)

  function ExtractEntry(entries: seq<ZipEntry>, name: string): (r: Result<Extraction, string>)
    ensures r.Success? <==> exists j :: 0 <= j < |entries| && entries[j].fileName == name
    ensures r.Success? ==> (r.value.MakeDirectory? <==> IsDirectoryName(name))
    ensures r.Success? && r.value.WriteFile? ==> Success(r.value.contents) == ReadEntryText(entries, name)
    ensures r.Failure? ==> r.error == "entry not found"
  {
    match FindEntry(entries, name)
    case Success(k) =>
      if IsDirectoryName(entries[k].fileName) then Success(MakeDirectory)
      else Success(WriteFile(entries[k].contents))
    case Failure(e) => Failure(e)
  }
}
