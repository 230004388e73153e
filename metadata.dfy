/**
 * Metadata extraction from meta.xml (ODFInspector::parseMetadata and its
 * `extractTag` lambda). This is deliberately a substring search, not an XML
 * parser: the first opening tag is found, then the first closing tag after it.
 */
module Metadata {
  import opened Wrappers
  import opened Text

  /** `<w>`: the shape of both needles extractTag searches for (`w` is `tag` or `/tag`). */
  function Bracketed(w: string): string
  {
    "<" + w + ">"
  }

  /** `<tag>`, the needle for the opening tag. */
  function OpenTag(tag: string): string
  {
    Bracketed(tag)
  }

  /** `</tag>`, the needle for the closing tag. */
  function CloseTag(tag: string): string
  {
    Bracketed("/" + tag)
  }

  /** `p` is where the first opening tag occurs. */
  predicate FirstOpenAt(xml: string, tag: string, p: int)
  {
    OccursAt(xml, OpenTag(tag), p) && forall i :: 0 <= i < p ==> !OccursAt(xml, OpenTag(tag), i)
  }

  /** `q` is where the first closing tag at or after `from` occurs. */
  predicate FirstCloseFrom(xml: string, tag: string, from: int, q: int)
  {
    from <= q && OccursAt(xml, CloseTag(tag), q) && forall i :: from <= i < q ==> !OccursAt(xml, CloseTag(tag), i)
  }

  /**
   * `value` sits between the first opening tag, found at `p`, and the first
   * closing tag after it.
   */
  predicate ValueAt(xml: string, tag: string, p: int, value: string)
  {
    var start := p + |OpenTag(tag)|;
    FirstOpenAt(xml, tag, p) && FirstCloseFrom(xml, tag, start, start + |value|)
    && xml[start..start + |value|] == value
  }

  /**
   * The extractTag lambda: the text between the end of the first `<tag>` and
   * the first `</tag>` after it; "" if either is missing.
   */
  function ExtractTag(xml: string, tag: string): (value: string)
    ensures (forall i :: !OccursAt(xml, OpenTag(tag), i)) ==> value == ""
    ensures value != "" ==> exists p :: ValueAt(xml, tag, p, value)
  {
    match Find(xml, OpenTag(tag), 0)
    case None => ""
    case Some(p) =>
      var start := p + |OpenTag(tag)|;
      match Find(xml, CloseTag(tag), start)
      case None => ""
      case Some(q) =>
        assert ValueAt(xml, tag, p, xml[start..q]);
        xml[start..q]
  }

  /** With both tags present, the value is exactly the text between the first pair. */
  lemma ExtractTagFound(xml: string, tag: string, p: nat, q: nat)
    requires FirstOpenAt(xml, tag, p)
    requires FirstCloseFrom(xml, tag, p + |OpenTag(tag)|, q)
    ensures ExtractTag(xml, tag) == xml[p + |OpenTag(tag)|..q]
  {
    FindFirst(xml, OpenTag(tag), 0, p);
    FindFirst(xml, CloseTag(tag), p + |OpenTag(tag)|, q);
  }

  /** An opening tag with no closing tag after it yields "". */
  lemma ExtractTagUnclosed(xml: string, tag: string, p: nat)
    requires FirstOpenAt(xml, tag, p)
    requires forall i :: p + |OpenTag(tag)| <= i ==> !OccursAt(xml, CloseTag(tag), i)
    ensures ExtractTag(xml, tag) == ""
  {
    FindFirst(xml, OpenTag(tag), 0, p);
  }

  /**
   * A well-formed element whose text contains no `<`, preceded by text in which
   * the opening tag does not start, is read back exactly.
   */
  lemma ExtractTagOfElement(pre: string, tag: string, value: string, post: string)
    requires forall i :: 0 <= i < |pre| ==> !OccursAt(pre + OpenTag(tag) + value + CloseTag(tag) + post, OpenTag(tag), i)
    requires forall i :: 0 <= i < |value| ==> value[i] != '<'
    ensures ExtractTag(pre + OpenTag(tag) + value + CloseTag(tag) + post, tag) == value
  {
    var xml := pre + OpenTag(tag) + value + CloseTag(tag) + post;
    var p := |pre|;
    var start := p + |OpenTag(tag)|;
    var q := start + |value|;
    assert xml[p..start] == OpenTag(tag);
    assert xml[q..q + |CloseTag(tag)|] == CloseTag(tag);
    forall i | start <= i < q
      ensures !OccursAt(xml, CloseTag(tag), i)
    {
      assert xml[i] == value[i - start];
    }
    assert xml[start..q] == value;
    ExtractTagFound(xml, tag, p, q);
  }

  /** Text with no angle bracket: a tag name, or character data between tags. */
  predicate Plain(w: string)
  {
    '<' !in w && '>' !in w
  }

  /** `needle` occurs nowhere in `s`. */
  ghost predicate Absent(s: string, needle: string)
  {
    forall i :: !OccursAt(s, needle, i)
  }

  /**
   * A bracketed needle cannot straddle a boundary where the left part ends
   * with `>` or the right part starts with `<`: every occurrence in `a + b`
   * lies wholly in `a` or wholly in `b`.
   */
  lemma OccursInAppend(a: string, b: string, w: string, i: int)
    requires Plain(w)
    requires a == [] || b == [] || a[|a| - 1] == '>' || b[0] == '<'
    ensures OccursAt(a + b, Bracketed(w), i) ==>
      OccursAt(a, Bracketed(w), i) || OccursAt(b, Bracketed(w), i - |a|)
  {
    var n, x := Bracketed(w), a + b;
    if i < 0 || i + |n| > |x| {
    } else if i + |n| <= |a| {
      assert x[i..i + |n|] == a[i..i + |n|];
    } else if i >= |a| {
      assert x[i..i + |n|] == b[i - |a|..i - |a| + |n|];
    } else if a[|a| - 1] == '>' {
      var k := |a| - 1 - i;
      assert x[i..i + |n|][k] == '>';
      assert n[k] != '>' by {
        if k > 0 {
          assert n[k] == w[k - 1];
        }
      }
    } else {
      var k := |a| - i;
      assert x[i..i + |n|][k] == b[0] == '<';
      assert n[k] != '<' by {
        if k < |n| - 1 {
          assert n[k] == w[k - 1];
        }
      }
    }
  }

  /** Absence is preserved by joining two pieces at a tag boundary. */
  lemma AbsentAppend(a: string, b: string, w: string)
    requires Plain(w)
    requires Absent(a, Bracketed(w)) && Absent(b, Bracketed(w))
    requires a == [] || b == [] || a[|a| - 1] == '>' || b[0] == '<'
    ensures Absent(a + b, Bracketed(w))
  {
    forall i
      ensures !OccursAt(a + b, Bracketed(w), i)
    {
      OccursInAppend(a, b, w, i);
    }
  }

  /** Inside a single tag `<v>`, a bracketed needle occurs only if it is that very tag. */
  lemma AbsentInOtherTag(v: string, w: string)
    requires Plain(v) && Plain(w) && v != w
    ensures Absent(Bracketed(v), Bracketed(w))
  {
    var x, n := Bracketed(v), Bracketed(w);
    assert n[0] == '<' && n[|n| - 1] == '>';
    forall i | 0 <= i && i + |n| <= |x|
      ensures !OccursAt(x, n, i)
    {
      if i > 0 {
        assert x[i] == v[i - 1] && v[i - 1] in v;
        assert x[i..i + |n|][0] == x[i];
      } else if |n| < |x| {
        assert x[|n| - 1] == v[|n| - 2] && v[|n| - 2] in v;
        assert x[i..i + |n|][|n| - 1] == x[|n| - 1];
      } else {
        assert x[1..|x| - 1] == v;
        assert n[1..|n| - 1] == w;
        assert x[i..i + |n|] == x;
      }
    }
  }

  /** Character data without `<` contains no bracketed needle. */
  lemma AbsentInText(t: string, w: string)
    requires '<' !in t
    ensures Absent(t, Bracketed(w))
  {
    var n := Bracketed(w);
    forall i | 0 <= i && i + |n| <= |t|
      ensures !OccursAt(t, n, i)
    {
      assert t[i..i + |n|][0] == t[i];
    }
  }

  /** The map parseMetadata fills before it drops anything: each field with its tag's text. */
  function TagValues(xml: string): (all: map<string, string>)
    ensures all.Keys == {"Title", "Creator", "Date", "Generator"}
  {
    map[
      "Title" := ExtractTag(xml, "dc:title"),
      "Creator" := ExtractTag(xml, "dc:creator"),
      "Date" := ExtractTag(xml, "dc:date"),
      "Generator" := ExtractTag(xml, "meta:generator")]
  }

  /**
   * What parseMetadata returns: the four fields with their extracted text,
   * the ones whose text is empty left out.
   */
  function MetadataOf(xml: string): (m: map<string, string>)
    ensures m.Keys <= {"Title", "Creator", "Date", "Generator"}
    ensures forall k :: k in m ==> m[k] != ""
    ensures "Title" in m <==> ExtractTag(xml, "dc:title") != ""
    ensures "Creator" in m <==> ExtractTag(xml, "dc:creator") != ""
    ensures "Date" in m <==> ExtractTag(xml, "dc:date") != ""
    ensures "Generator" in m <==> ExtractTag(xml, "meta:generator") != ""
    ensures forall k :: k in m ==> m[k] == TagValues(xml)[k]
  {
    var all := TagValues(xml);
    map k | k in all && all[k] != "" :: all[k]
  }

  /** A map holding exactly the non-empty tag values, unchanged, is the metadata. */
  lemma MetadataOfIsFilter(xml: string, m: map<string, string>)
    requires forall k :: k in m <==> k in TagValues(xml) && TagValues(xml)[k] != ""
    requires forall k :: k in m ==> m[k] == TagValues(xml)[k]
    ensures m == MetadataOf(xml)
  {
  }
}

/** A worked example: a meta.xml holding only a title. */
module MetadataExample {
  import opened Text
  import opened Metadata

  lemma ExampleMetaLiteral()
    ensures "<meta:meta><dc:title>Report</dc:title></meta:meta>" == "<meta:meta>" + "<dc:title>" + "Report" + "</dc:title>" + "</meta:meta>"
  {
  }

  lemma ExampleMetaTags()
    ensures Bracketed("meta:meta") == "<meta:meta>" && Bracketed("dc:title") == "<dc:title>"
    ensures Bracketed("/dc:title") == "</dc:title>" && Bracketed("/meta:meta") == "</meta:meta>"
  {
  }

  /** The example document, one title element inside the root element, cut at its tag boundaries. */
  lemma ExampleMetaPieces()
    ensures "<meta:meta><dc:title>Report</dc:title></meta:meta>"
      == Bracketed("meta:meta") + Bracketed("dc:title") + "Report" + Bracketed("/dc:title") + Bracketed("/meta:meta")
  {
    ExampleMetaLiteral();
    ExampleMetaTags();
  }

  /** A tag other than the four the example contains is absent from it, so extracts as "". */
  lemma ExampleMetaLacks(xml: string, t: string)
    requires xml == Bracketed("meta:meta") + Bracketed("dc:title") + "Report" + Bracketed("/dc:title") + Bracketed("/meta:meta")
    requires Plain(t) && t !in ["meta:meta", "dc:title", "/dc:title", "/meta:meta"]
    ensures ExtractTag(xml, t) == ""
  {
    var p1, p2, p3, p4, p5 := Bracketed("meta:meta"), Bracketed("dc:title"), "Report",
      Bracketed("/dc:title"), Bracketed("/meta:meta");
    AbsentInOtherTag("meta:meta", t);
    AbsentInOtherTag("dc:title", t);
    AbsentInText(p3, t);
    AbsentInOtherTag("/dc:title", t);
    AbsentInOtherTag("/meta:meta", t);
    AbsentAppend(p1, p2, t);
    AbsentAppend(p1 + p2, p3, t);
    AbsentAppend(p1 + p2 + p3, p4, t);
    AbsentAppend(p1 + p2 + p3 + p4, p5, t);
  }

  /** The title is read back from the example. */
  lemma ExampleMetaTitle(xml: string)
    requires xml == Bracketed("meta:meta") + Bracketed("dc:title") + "Report" + Bracketed("/dc:title") + Bracketed("/meta:meta")
    ensures ExtractTag(xml, "dc:title") == "Report"
  {
    var p1 := Bracketed("meta:meta");
    var rest := Bracketed("dc:title") + "Report" + Bracketed("/dc:title") + Bracketed("/meta:meta");
    assert xml == p1 + rest;
    assert xml == p1 + OpenTag("dc:title") + "Report" + CloseTag("dc:title") + Bracketed("/meta:meta");
    AbsentInOtherTag("meta:meta", "dc:title");
    forall i | 0 <= i < |p1|
      ensures !OccursAt(xml, OpenTag("dc:title"), i)
    {
      OccursInAppend(p1, rest, "dc:title", i);
    }
    ExtractTagOfElement(p1, "dc:title", "Report", Bracketed("/meta:meta"));
  }

  /** A document whose only non-empty field is its title yields a one-entry map. */
  lemma MetadataOnlyTitle(xml: string)
    requires ExtractTag(xml, "dc:title") == "Report"
    requires ExtractTag(xml, "dc:creator") == "" && ExtractTag(xml, "dc:date") == ""
    requires ExtractTag(xml, "meta:generator") == ""
    ensures MetadataOf(xml) == map["Title" := "Report"]
  {
    var m := MetadataOf(xml);
    assert "Title" in m && m["Title"] == "Report";
    assert "Creator" !in m && "Date" !in m && "Generator" !in m;
    assert m.Keys == {"Title"};
  }

  /** Only the title is present, so parseMetadata reports Title and nothing else. */
  lemma MetadataExample(xml: string)
    requires xml == "<meta:meta><dc:title>Report</dc:title></meta:meta>"
    ensures MetadataOf(xml) == map["Title" := "Report"]
  {
    ExampleMetaPieces();
    ExampleMetaTitle(xml);
    ExampleMetaOthers(xml);
    MetadataOnlyTitle(xml);
  }

  /** The example has no creator, date or generator. */
  lemma ExampleMetaOthers(xml: string)
    requires xml == Bracketed("meta:meta") + Bracketed("dc:title") + "Report" + Bracketed("/dc:title") + Bracketed("/meta:meta")
    ensures ExtractTag(xml, "dc:creator") == ""
    ensures ExtractTag(xml, "dc:date") == ""
    ensures ExtractTag(xml, "meta:generator") == ""
  {
    ExampleMetaLacks(xml, "dc:creator");
    ExampleMetaLacks(xml, "dc:date");
    ExampleMetaLacks(xml, "meta:generator");
  }
}
