/**
 * Classification of a document by its mimetype (ODFInspector::getDocTypeFromMime):
 * the first of six keywords found anywhere in the mimetype decides the kind.
 */
module DocType {
  import opened Text

  /** The keywords in the order the source tests them. */
  const Keywords: seq<string> := ["text", "spreadsheet", "presentation", "graphics", "chart", "formula"]

  /** The kind belonging to each keyword, index for index. */
  const Labels: seq<string> := [
    "Text Document (.odt)", "Spreadsheet (.ods)", "Presentation (.odp)",
    "Drawing (.odg)", "Chart (.odc)", "Formula (.odf)"]

  const Unknown: string := "Unknown ODF Document"

  /** getDocTypeFromMime, as the source's if-chain. */
  function DocTypeFromMime(mime: string): (kind: string)
    ensures kind in Labels || kind == Unknown
    ensures Contains(mime, "text") ==> kind == "Text Document (.odt)"
  {
    if Contains(mime, "text") then "Text Document (.odt)"
    else if Contains(mime, "spreadsheet") then "Spreadsheet (.ods)"
    else if Contains(mime, "presentation") then "Presentation (.odp)"
    else if Contains(mime, "graphics") then "Drawing (.odg)"
    else if Contains(mime, "chart") then "Chart (.odc)"
    else if Contains(mime, "formula") then "Formula (.odf)"
    else Unknown
  }

  /** Reference definition: walk the keyword table from index `k` and take the first hit. */
  function FirstMatch(mime: string, k: nat): (kind: string)
    requires k <= |Keywords|
    decreases |Keywords| - k
  {
    if k == |Keywords| then Unknown
    else if Contains(mime, Keywords[k]) then Labels[k]
    else FirstMatch(mime, k + 1)
  }

  /** The if-chain agrees with the table-driven first-match rule on every mimetype. */
  lemma DocTypeIsFirstMatch(mime: string)
    ensures DocTypeFromMime(mime) == FirstMatch(mime, 0)
  {
    assert FirstMatch(mime, 6) == Unknown;
  }

  /**
   * The kind of keyword `k` is chosen exactly when that keyword occurs and
   * none of the keywords checked before it does.
   */
  lemma DocTypeChoosesFirstKeyword(mime: string, k: nat)
    requires k < |Keywords|
    ensures DocTypeFromMime(mime) == Labels[k] <==>
      Contains(mime, Keywords[k]) && forall j :: 0 <= j < k ==> !Contains(mime, Keywords[j])
  {
    DocTypeIsFirstMatch(mime);
  }

  /** Unknown is returned exactly when no keyword occurs. */
  lemma DocTypeUnknownIff(mime: string)
    ensures DocTypeFromMime(mime) == Unknown <==> forall j :: 0 <= j < |Keywords| ==> !Contains(mime, Keywords[j])
  {
    assert Unknown !in Labels;
    if forall j :: 0 <= j < |Keywords| ==> !Contains(mime, Keywords[j]) {
      assert !Contains(mime, Keywords[0]) && !Contains(mime, Keywords[1]) && !Contains(mime, Keywords[2]);
      assert !Contains(mime, Keywords[3]) && !Contains(mime, Keywords[4]) && !Contains(mime, Keywords[5]);
    }
  }
}
