/**
 * The inspector object (class ODFInspector): loading and validating a
 * package, the document fields it keeps, and the queries over them.
 *
 * The ZIP reader is the archive of ZipArchive. Whether the file at the
 * inspector's path opens, and what it holds, is the constructor parameter
 * `source`: Opened(archive), or OpenFailed(reason) where `reason` is the text
 * ZipReader::getLastError() reports.
 */
module Inspector {
  import opened Wrappers
  import opened Text
  import opened ZipArchive
  import DocType
  import Metadata

  datatype OpenOutcome = Opened(archive: Archive) | OpenFailed(reason: string)

  const MimetypeEntry := "mimetype"
  const ContentEntry := "content.xml"
  const MetaEntry := "meta.xml"
  const StylesEntry := "styles.xml"
  const ManifestEntry := "META-INF/manifest.xml"

  /** Every ODF media type starts with this. */
  const OdfPrefix := "application/vnd.oasis.opendocument"

  const OpenFailurePrefix := "Failed to open ODF file: "
  const InvalidOdf := "Invalid ODF file"

  /** The mimetype entry as validateODF keeps it: with every whitespace character removed. */
  function StoredMimeType(a: Archive): (m: string)
    ensures |m| <= |ExtractFile(a, MimetypeEntry)|
    ensures forall i :: 0 <= i < |m| ==> !IsSpace(m[i])
  {
    StripSpaces(ExtractFile(a, MimetypeEntry))
  }

  /** validateODF's test: the prefix is found at position 0. */
  predicate IsOdfMimeType(mime: string)
  {
    Find(mime, OdfPrefix, 0) == Some(0)
  }

  /** The outcome load() accepts: the file opened and its mimetype entry is an ODF media type. */
  predicate Accepts(o: OpenOutcome)
  {
    o.Opened? && FileExists(o.archive, MimetypeEntry) && IsOdfMimeType(StoredMimeType(o.archive))
  }

  /**
   * A package is accepted exactly when it has a mimetype entry whose
   * contents, with whitespace removed, begin with the ODF prefix; such a
   * media type is never empty.
   */
  lemma AcceptsIff(a: Archive)
    ensures Accepts(Opened(a)) <==> FileExists(a, MimetypeEntry) && OdfPrefix <= StoredMimeType(a)
    ensures Accepts(Opened(a)) ==> |StoredMimeType(a)| >= |OdfPrefix| > 0
  {
    FindAtZeroIsPrefix(StoredMimeType(a), OdfPrefix);
  }

  /** A buffer after extractCoreFiles: the entry's contents if it exists, else what it held. */
  function Refreshed(a: Archive, name: string, current: string): (next: string)
    ensures FileExists(a, name) ==> next == ExtractFile(a, name)
    ensures !FileExists(a, name) ==> next == current
  {
    if FileExists(a, name) then ExtractFile(a, name) else current
  }

  /**
   * The erase loop of parseMetadata: `keys` lists the map's keys, each once,
   * in iteration order, and every entry whose value is empty is erased.
   */
  method EraseEmpty(m: map<string, string>, keys: seq<string>) returns (r: map<string, string>)
    requires forall key :: key in m <==> key in keys
    requires forall i, j :: 0 <= i < j < |keys| ==> keys[i] != keys[j]
    ensures forall key :: key in r <==> key in m && m[key] != ""
    ensures forall key :: key in r ==> r[key] == m[key]
  {
    r := m;
    var k := 0;
    while k < |keys|
      invariant 0 <= k <= |keys|
      invariant r.Keys <= m.Keys
      invariant forall key :: key in r ==> r[key] == m[key]
      invariant forall j :: 0 <= j < k ==> (keys[j] in r <==> m[keys[j]] != "")
      invariant forall j :: k <= j < |keys| ==> keys[j] in r
    {
      if r[keys[k]] == "" {
        r := r - {keys[k]};
      }
      k := k + 1;
    }
  }

  class Inspector {
    const path: string
    const source: OpenOutcome
    var mimeType: string
    var lastError: string
    var isLoaded: bool
    var contentXml: string
    var metaXml: string
    var stylesXml: string
    var manifestXml: string

    /** A loaded inspector holds the media type of an accepted package. */
    ghost predicate Valid()
      reads this
    {
      isLoaded ==> Accepts(source) && mimeType == StoredMimeType(source.archive)
    }

    constructor (path: string, source: OpenOutcome)
      ensures this.path == path && this.source == source
      ensures mimeType == "" && lastError == "" && !isLoaded
      ensures contentXml == "" && metaXml == "" && stylesXml == "" && manifestXml == ""
      ensures Valid() && !IsValidODF()
    {
      this.path := path;
      this.source := source;
      mimeType := "";
      lastError := "";
      isLoaded := false;
      contentXml := "";
      metaXml := "";
      stylesXml := "";
      manifestXml := "";
    }

    /**
     * validateODF on the inspector's own open archive `a`: no mimetype entry fails and
     * leaves the media type alone; otherwise the stripped entry is stored,
     * whether or not it passes.
     */
    method ValidateODF(a: Archive) returns (ok: bool)
      requires source == Opened(a)
      modifies this`mimeType
      ensures old(Valid()) ==> Valid()
      ensures !FileExists(a, MimetypeEntry) ==> !ok && mimeType == old(mimeType)
      ensures FileExists(a, MimetypeEntry) ==> mimeType == StoredMimeType(a)
      ensures ok <==> FileExists(a, MimetypeEntry) && IsOdfMimeType(mimeType)
    {
      if !FileExists(a, MimetypeEntry) {
        return false;
      }
      mimeType := ExtractFile(a, MimetypeEntry);
      mimeType := StripSpaces(mimeType);
      ok := Find(mimeType, OdfPrefix, 0) == Some(0);
    }

    /**
     * extractCoreFiles on the inspector's own open archive `a`: each of the four buffers takes
     * its entry's contents when the entry exists. It always succeeds.
     */
    method ExtractCoreFiles(a: Archive) returns (ok: bool)
      requires source == Opened(a)
      modifies this`contentXml, this`metaXml, this`stylesXml, this`manifestXml
      ensures old(Valid()) ==> Valid()
      ensures ok
      ensures contentXml == Refreshed(a, ContentEntry, old(contentXml))
      ensures metaXml == Refreshed(a, MetaEntry, old(metaXml))
      ensures stylesXml == Refreshed(a, StylesEntry, old(stylesXml))
      ensures manifestXml == Refreshed(a, ManifestEntry, old(manifestXml))
    {
      if FileExists(a, ContentEntry) {
        contentXml := ExtractFile(a, ContentEntry);
      }
      if FileExists(a, MetaEntry) {
        metaXml := ExtractFile(a, MetaEntry);
      }
      if FileExists(a, StylesEntry) {
        stylesXml := ExtractFile(a, StylesEntry);
      }
      if FileExists(a, ManifestEntry) {
        manifestXml := ExtractFile(a, ManifestEntry);
      }
      return true;
    }

    /**
     * load(): succeeds exactly for an accepted package and then marks the
     * inspector loaded; each failure sets its message and leaves the loaded
     * flag and the document buffers as they were.
     */
    method Load() returns (ok: bool)
      modifies this
      ensures ok <==> Accepts(source)
      ensures source.OpenFailed? ==>
        && lastError == OpenFailurePrefix + source.reason
        && mimeType == old(mimeType)
      ensures source.Opened? ==>
        if FileExists(source.archive, MimetypeEntry) then mimeType == StoredMimeType(source.archive)
        else mimeType == old(mimeType)
      ensures source.Opened? && !ok ==> lastError == InvalidOdf
      ensures !ok ==>
        && isLoaded == old(isLoaded)
        && contentXml == old(contentXml) && metaXml == old(metaXml)
        && stylesXml == old(stylesXml) && manifestXml == old(manifestXml)
      ensures ok ==>
        && isLoaded && lastError == old(lastError)
        && contentXml == Refreshed(source.archive, ContentEntry, old(contentXml))
        && metaXml == Refreshed(source.archive, MetaEntry, old(metaXml))
        && stylesXml == Refreshed(source.archive, StylesEntry, old(stylesXml))
        && manifestXml == Refreshed(source.archive, ManifestEntry, old(manifestXml))
      ensures old(Valid()) ==> Valid()
      ensures ok ==> Valid() && IsValidODF()
    {
      match source {
        case OpenFailed(reason) =>
          lastError := OpenFailurePrefix + reason;
          return false;
        case Opened(a) =>
          var valid := ValidateODF(a);
          if !valid {
            lastError := InvalidOdf;
            return false;
          }
          var extracted := ExtractCoreFiles(a);
          // extraction never fails, so the "Failed to extract core ODF files" branch is dead
          assert extracted;
          isLoaded := true;
          AcceptsIff(a);
          return true;
      }
    }

    /** isValidODF(): loaded, with a media type on record. */
    function IsValidODF(): (r: bool)
      reads this
      ensures r ==> isLoaded && |mimeType| > 0
    {
      isLoaded && mimeType != ""
    }

    /** For a consistent inspector, being valid is the same as being loaded. */
    lemma ValidMeansLoaded()
      requires Valid()
      ensures IsValidODF() <==> isLoaded
    {
      if isLoaded {
        AcceptsIff(source.archive);
      }
    }

    /** getDocumentType(). */
    function DocumentType(): (kind: string)
      reads this
      ensures kind in DocType.Labels || kind == DocType.Unknown
    {
      DocType.DocTypeFromMime(mimeType)
    }

    /**
     * parseMetadata(): the four tag values are put in a map, and the map is
     * then walked in key order erasing the empty ones.
     */
    method ParseMetadata() returns (metadata: map<string, string>)
      ensures metadata == Metadata.MetadataOf(metaXml)
    {
      metadata := map[];
      metadata := metadata["Title" := Metadata.ExtractTag(metaXml, "dc:title")];
      metadata := metadata["Creator" := Metadata.ExtractTag(metaXml, "dc:creator")];
      metadata := metadata["Date" := Metadata.ExtractTag(metaXml, "dc:date")];
      metadata := metadata["Generator" := Metadata.ExtractTag(metaXml, "meta:generator")];
      assert metadata == Metadata.TagValues(metaXml);
      metadata := EraseEmpty(metadata, ["Creator", "Date", "Generator", "Title"]);
      Metadata.MetadataOfIsFilter(metaXml, metadata);
    }

    /**
     * The names listImages() reports: none when the inspector is not loaded,
     * otherwise the archive's entries under Pictures/ or images/, in order.
     */
    function ImageFiles(): (r: Option<seq<string>>)
      requires Valid()
      reads this
      ensures r.None? <==> !isLoaded
      ensures r.Some? ==> forall i :: 0 <= i < |r.value| ==> IsImagePath(r.value[i]) && r.value[i] in ListFiles(source.archive)
      ensures r.Some? ==> forall n :: n in ListFiles(source.archive) && IsImagePath(n) ==> n in r.value
    {
      if !isLoaded then None else Some(ImageEntries(ListFiles(source.archive)))
    }
  }

  /** The text document media type holds no whitespace. */
  lemma TextMimeTypeHasNoSpaces(m: string)
    requires m == OdfPrefix + ".text"
    ensures StripSpaces(m) == m
  {
    assert forall i :: 0 <= i < |m| ==> !IsSpace(m[i]);
    StripSpacesNoSpaces(m);
  }

  /** The text document media type mentions "text" just after the prefix and its dot. */
  lemma TextMimeTypeContainsText(m: string)
    requires m == OdfPrefix + ".text"
    ensures Contains(m, "text")
  {
    assert m[|OdfPrefix| + 1..] == "text";
    assert OccursAt(m, "text", |OdfPrefix| + 1);
    ContainsIff(m, "text");
  }

  /** A text document's mimetype entry with a trailing newline is accepted and classified as text. */
  lemma TextDocumentAccepted(a: Archive)
    requires FileExists(a, MimetypeEntry)
    requires ExtractFile(a, MimetypeEntry) == OdfPrefix + ".text" + "\n"
    ensures StoredMimeType(a) == OdfPrefix + ".text"
    ensures Accepts(Opened(a))
    ensures DocType.DocTypeFromMime(StoredMimeType(a)) == "Text Document (.odt)"
  {
    var m := OdfPrefix + ".text";
    TextMimeTypeHasNoSpaces(m);
    StripSpacesAppend(m, "\n");
    assert StripSpaces("\n") == [];
    assert StoredMimeType(a) == m;
    assert OdfPrefix <= m;
    AcceptsIff(a);
    TextMimeTypeContainsText(m);
  }

  /** A PDF file is not an ODF package. */
  lemma PdfRejected(a: Archive)
    requires ExtractFile(a, MimetypeEntry) == "application/pdf"
    ensures !Accepts(Opened(a))
  {
    assert "application/pdf" == "application" + "/pdf";
    assert forall i :: 0 <= i < |"application/pdf"| ==> !IsSpace("application/pdf"[i]);
    StripSpacesNoSpaces("application/pdf");
    AcceptsIff(a);
  }
}
