/**
 * The ZIP container as the inspector sees it. The ZIP reader is a thin
 * wrapper over minizip, so the archive is modelled abstractly: the entries
 * in central-directory order, each a name and its uncompressed bytes.
 * Lookup by name is exact and, like unzLocateFile scanning from the first
 * entry, finds the first entry carrying that name.
 */
module ZipArchive {
  import opened Wrappers
  import opened Text

  datatype Entry = Entry(name: string, data: string)

  datatype Archive = Archive(entries: seq<Entry>)

  /** Index of the first entry named `name`. */
  function IndexOf(entries: seq<Entry>, name: string): (r: Option<nat>)
    ensures r.Some? ==> r.value < |entries| && entries[r.value].name == name
    ensures forall i :: 0 <= i < |entries| && (r.None? || i < r.value) ==> entries[i].name != name
  {
    if entries == [] then None
    else if entries[0].name == name then Some(0)
    else match IndexOf(entries[1..], name)
      case None => None
      case Some(i) => Some(i + 1)
  }

  /** ZipReader::listFiles: the entry names in directory order. */
  function ListFiles(a: Archive): (names: seq<string>)
    ensures |names| == |a.entries|
    ensures forall i :: 0 <= i < |names| ==> names[i] == a.entries[i].name
  {
    seq(|a.entries|, i requires 0 <= i < |a.entries| => a.entries[i].name)
  }

  /** ZipReader::fileExists: some entry carries exactly this name. */
  function FileExists(a: Archive, name: string): (b: bool)
    ensures b <==> name in ListFiles(a)
  {
    var r := IndexOf(a.entries, name);
    assert r.None? ==> forall i :: 0 <= i < |a.entries| ==> ListFiles(a)[i] != name;
    r.Some?
  }

  /** ZipReader::extractFile: the bytes of the first entry with this name, "" when there is none. */
  function ExtractFile(a: Archive, name: string): (data: string)
    ensures !FileExists(a, name) ==> data == ""
    ensures FileExists(a, name) ==>
      exists i :: 0 <= i < |a.entries| && a.entries[i].name == name && a.entries[i].data == data
  {
    match IndexOf(a.entries, name)
    case None => ""
    case Some(i) => a.entries[i].data
  }

  /** ZipReader::getFileSize: the uncompressed size of the named entry, 0 when absent. */
  function FileSize(a: Archive, name: string): (size: nat)
    ensures size == |ExtractFile(a, name)|
    ensures !FileExists(a, name) ==> size == 0
  {
    match IndexOf(a.entries, name)
    case None => 0
    case Some(i) => |a.entries[i].data|
  }

  /** When names are unique, extraction returns the data stored under that name. */
  lemma ExtractUnique(a: Archive, i: nat)
    requires i < |a.entries|
    requires forall j :: 0 <= j < |a.entries| && j != i ==> a.entries[j].name != a.entries[i].name
    ensures FileExists(a, a.entries[i].name)
    ensures ExtractFile(a, a.entries[i].name) == a.entries[i].data
  {
    assert ListFiles(a)[i] == a.entries[i].name;
  }

  /** With duplicated names the first entry in directory order wins. */
  lemma ExtractFirstWins(a: Archive, i: nat)
    requires i < |a.entries|
    requires forall j :: 0 <= j < i ==> a.entries[j].name != a.entries[i].name
    ensures ExtractFile(a, a.entries[i].name) == a.entries[i].data
  {
  }

  /** The prefix test listImages applies to each entry name. */
  predicate IsImagePath(name: string)
  {
    "Pictures/" <= name || "images/" <= name
  }

  /** The names listImages reports: those under Pictures/ or images/, in directory order. */
  function ImageEntries(names: seq<string>): (r: seq<string>)
    ensures |r| <= |names|
    ensures forall i :: 0 <= i < |r| ==> IsImagePath(r[i]) && r[i] in names
    ensures forall n :: n in names && IsImagePath(n) ==> n in r
  {
    if names == [] then []
    else (if IsImagePath(names[0]) then [names[0]] else []) + ImageEntries(names[1..])
  }

  /** Filtering distributes over concatenation, so the relative order of the images is kept. */
  lemma {:induction false} ImageEntriesAppend(a: seq<string>, b: seq<string>)
    ensures ImageEntries(a + b) == ImageEntries(a) + ImageEntries(b)
  {
    if a == [] {
      assert a + b == b;
    } else {
      assert (a + b)[1..] == a[1..] + b;
      ImageEntriesAppend(a[1..], b);
    }
  }

  /** The source's `find(prefix) == 0` test is the prefix test modelled by IsImagePath. */
  lemma ImagePathIsFindAtZero(name: string)
    ensures IsImagePath(name) <==> Find(name, "Pictures/", 0) == Some(0) || Find(name, "images/", 0) == Some(0)
  {
    FindAtZeroIsPrefix(name, "Pictures/");
    FindAtZeroIsPrefix(name, "images/");
  }
}
