/**
 * The XML indenter (ODFInspector::formatXML): one pass over the characters
 * that inserts a newline and space padding in front of some `<`, driven by an
 * indent counter.
 *
 * The padding is appended with `formatted.append(indent * 2, ' ')`. When the
 * counter is negative the count converts to a huge size_t, append throws
 * std::length_error and no text is produced; the model returns
 * Failure(NegativePadding(i)) for the character `i` at which that happens.
 */
module XmlFormat {
  import opened Wrappers

  datatype FormatError = NegativePadding(position: nat)

  /** `n` spaces. */
  function Spaces(n: nat): string
  {
    if n == 0 then [] else Spaces(n - 1) + [' ']
  }

  lemma {:induction false} SpacesShape(n: nat)
    ensures |Spaces(n)| == n
    ensures forall k :: 0 <= k < n ==> Spaces(n)[k] == ' '
  {
    if n > 0 {
      SpacesShape(n - 1);
    }
  }

  /** A line break followed by the padding for indent level `level`. */
  function Newline(level: nat): string
  {
    "\n" + Spaces(2 * level)
  }

  /** Position `i` starts a closing tag `</`. */
  predicate IsCloseStart(xml: string, i: nat)
    requires i < |xml|
  {
    xml[i] == '<' && i + 1 < |xml| && xml[i + 1] == '/'
  }

  /**
   * Position `i` is a `>` that raises the indent: not preceded by `/`, and
   * either the last character or directly followed by `<`.
   */
  predicate RaisesLevel(xml: string, i: nat)
    requires i < |xml|
  {
    xml[i] == '>' && i > 0 && xml[i - 1] != '/' && !(i + 1 < |xml| && xml[i + 1] != '<')
  }

  /**
   * The loop state after some characters: what was inserted before each of
   * them, the indent counter and the afterClosingBracket flag.
   */
  datatype Scan = Scan(pads: seq<string>, indent: int, afterClose: bool)

  /** The line break a `<` gets when it follows a `>`. */
  function Lead(st: Scan): string
    requires st.indent >= 0
  {
    if st.afterClose then Newline(st.indent) else ""
  }

  /** The loop body for a `<` at position `i`. */
  function AtOpenBracket(xml: string, i: nat, st: Scan): (r: Result<Scan, FormatError>)
    requires i < |xml| && st.indent >= 0
    ensures r.Success? ==> r.value.indent >= 0
  {
    if IsCloseStart(xml, i) then
      if st.indent - 1 < 0 then Failure(NegativePadding(i))
      else Success(Scan(st.pads + [Lead(st) + Newline(st.indent - 1)], st.indent - 1, false))
    else Success(Scan(st.pads + [Lead(st)], st.indent, false))
  }

  /**
   * One iteration of the loop, for character `i`. The counter only goes down
   * at a `</`, where a negative value fails at once, so it is never negative
   * between iterations.
   */
  function Step(xml: string, i: nat, st: Scan): (r: Result<Scan, FormatError>)
    requires i < |xml| && st.indent >= 0
    ensures r.Success? ==> r.value.indent >= 0
  {
    if xml[i] == '<' then AtOpenBracket(xml, i, st)
    else if xml[i] == '>' then
      Success(Scan(st.pads + [""], if RaisesLevel(xml, i) then st.indent + 1 else st.indent, true))
    else
      Success(Scan(st.pads + [""], st.indent, st.afterClose))
  }

  /** The loop state after the first `n` characters. */
  function Run(xml: string, n: nat): (r: Result<Scan, FormatError>)
    requires n <= |xml|
    ensures r.Success? ==> |r.value.pads| == n && r.value.indent >= 0
  {
    if n == 0 then Success(Scan([], 0, false))
    else match Run(xml, n - 1)
      case Failure(e) => Failure(e)
      case Success(st) => Step(xml, n - 1, st)
  }

  /**
   * The output for the first |pads| characters: each character, in order,
   * preceded by its padding.
   */
  function Weave(xml: string, pads: seq<string>): string
    requires |pads| <= |xml|
  {
    if pads == [] then []
    else Weave(xml, pads[..|pads| - 1]) + pads[|pads| - 1] + [xml[|pads| - 1]]
  }

  /** Interleaving never drops a character: the result is at least as long as the pads are many. */
  lemma {:induction false} WeaveLength(xml: string, pads: seq<string>)
    requires |pads| <= |xml|
    ensures |Weave(xml, pads)| >= |pads|
    decreases |pads|
  {
    if pads != [] {
      WeaveLength(xml, pads[..|pads| - 1]);
    }
  }

  /** What formatXML produces for `xml`. */
  function Formatted(xml: string): (r: Result<string, FormatError>)
    ensures r.Success? ==> |r.value| >= |xml|
  {
    match Run(xml, |xml|)
    case Failure(e) => Failure(e)
    case Success(st) =>
      WeaveLength(xml, st.pads);
      Success(Weave(xml, st.pads))
  }

  /** Once the loop has failed it stays failed. */
  lemma {:induction false} RunFailureSticks(xml: string, m: nat, n: nat)
    requires m <= n <= |xml|
    requires Run(xml, m).Failure?
    ensures Run(xml, n) == Run(xml, m)
    decreases n - m
  {
    if m < n {
      RunFailureSticks(xml, m, n - 1);
    }
  }

  /** Weaving one more character onto the text produced so far. */
  lemma WeaveSnoc(xml: string, pads: seq<string>, pad: string)
    requires |pads| < |xml|
    ensures Weave(xml, pads + [pad]) == Weave(xml, pads) + pad + [xml[|pads|]]
  {
    assert (pads + [pad])[..|pads|] == pads;
  }

  /** One more character extends a loop state that has not failed. */
  lemma RunNext(xml: string, i: nat, st: Scan)
    requires i < |xml| && Run(xml, i) == Success(st)
    ensures Run(xml, i + 1) == Step(xml, i, st)
  {
  }

  /** formatXML, as the source's character loop. */
  method FormatXml(xml: string) returns (r: Result<string, FormatError>)
    ensures r == Formatted(xml)
  {
    var formatted := "";
    var indent := 0;
    var afterClosingBracket := false;
    ghost var pads: seq<string> := [];
    var i := 0;
    while i < |xml|
      invariant 0 <= i <= |xml|
      invariant Run(xml, i) == Success(Scan(pads, indent, afterClosingBracket))
      invariant indent >= 0
      invariant formatted == Weave(xml, pads)
    {
      ghost var before := Scan(pads, indent, afterClosingBracket);
      ghost var text := formatted;
      var c := xml[i];
      ghost var pad := "";
      if c == '<' {
        if afterClosingBracket {
          formatted := formatted + Newline(indent);
          pad := Newline(indent);
        }
        assert pad == Lead(before) && formatted == text + pad;
        if i + 1 < |xml| && xml[i + 1] == '/' {
          indent := indent - 1;
          if indent < 0 {
            RunNext(xml, i, before);
            RunFailureSticks(xml, i + 1, |xml|);
            return Failure(NegativePadding(i));
          }
          formatted := formatted + Newline(indent);
          pad := pad + Newline(indent);
          assert formatted == text + pad;
        }
        afterClosingBracket := false;
      }
      formatted := formatted + [c];
      if c == '>' {
        afterClosingBracket := true;
        if i > 0 && xml[i - 1] != '/' {
          if i + 1 < |xml| && xml[i + 1] != '<' {
            // followed by text: the level is not raised
          } else {
            indent := indent + 1;
          }
        }
      }
      assert formatted == text + pad + [c];
      ghost var after := Scan(pads + [pad], indent, afterClosingBracket);
      if c == '<' {
        assert AtOpenBracket(xml, i, before) == Success(after);
      } else if c == '>' {
        assert indent == if RaisesLevel(xml, i) then before.indent + 1 else before.indent;
      }
      assert Step(xml, i, before) == Success(after);
      RunNext(xml, i, before);
      WeaveSnoc(xml, pads, pad);
      pads := pads + [pad];
      i := i + 1;
    }
    r := Success(formatted);
  }

  // ---------------------------------------------------------------------
  // What the loop computes, without the loop.

  /** Number of `>` before position `n` that raise the level. */
  function Raises(xml: string, n: nat): nat
    requires n <= |xml|
  {
    if n == 0 then 0 else Raises(xml, n - 1) + (if RaisesLevel(xml, n - 1) then 1 else 0)
  }

  /** Number of `</` that start before position `n`. */
  function Closes(xml: string, n: nat): nat
    requires n <= |xml|
  {
    if n == 0 then 0 else Closes(xml, n - 1) + (if IsCloseStart(xml, n - 1) then 1 else 0)
  }

  /** The nesting level the indenter believes in before position `n`. */
  function Depth(xml: string, n: nat): int
    requires n <= |xml|
  {
    Raises(xml, n) - Closes(xml, n)
  }

  /** The last `<` or `>` before position `n`, if any. */
  function LastBracket(xml: string, n: nat): Option<char>
    requires n <= |xml|
  {
    if n == 0 then None
    else if xml[n - 1] == '<' || xml[n - 1] == '>' then Some(xml[n - 1])
    else LastBracket(xml, n - 1)
  }

  /** Every `</` before position `n` is met at a positive depth. */
  predicate ClosesAtPositiveDepth(xml: string, n: nat)
    requires n <= |xml|
  {
    forall j :: 0 <= j < n && IsCloseStart(xml, j) ==> Depth(xml, j) > 0
  }

  /** While every `</` is met at a positive depth, the depth is never negative. */
  lemma {:induction false} DepthNeverNegative(xml: string, n: nat)
    requires n <= |xml| && ClosesAtPositiveDepth(xml, n)
    ensures Depth(xml, n) >= 0
  {
    if n > 0 {
      DepthNeverNegative(xml, n - 1);
    }
  }

  /**
   * The text inserted before character `j`: a `<` that follows a `>` starts a
   * new line at the current depth, and a `</` starts one more line one level
   * shallower; nothing is inserted before any other character.
   */
  function PadAt(xml: string, j: nat): (pad: string)
    requires j < |xml| && ClosesAtPositiveDepth(xml, j + 1)
  {
    DepthNeverNegative(xml, j);
    var d := Depth(xml, j);
    if xml[j] != '<' then ""
    else
      (if LastBracket(xml, j) == Some('>') then Newline(d) else "")
      + (if IsCloseStart(xml, j) then Newline(d - 1) else "")
  }

  /**
   * The loop's state after `n` characters, in closed form: it has not failed
   * exactly when every `</` so far came at a positive depth, and then the
   * counter is the depth, the flag says the last bracket was `>`, and the
   * padding before each character is PadAt.
   */
  lemma {:induction false} RunClosedForm(xml: string, n: nat)
    requires n <= |xml|
    ensures Run(xml, n).Success? <==> ClosesAtPositiveDepth(xml, n)
    ensures Run(xml, n).Success? ==>
      && Run(xml, n).value.indent == Depth(xml, n)
      && (Run(xml, n).value.afterClose <==> LastBracket(xml, n) == Some('>'))
      && forall j :: 0 <= j < n ==> Run(xml, n).value.pads[j] == PadAt(xml, j)
  {
    if n > 0 {
      var m := n - 1;
      RunClosedForm(xml, m);
      if Run(xml, m).Success? {
        var st := Run(xml, m).value;
        DepthNeverNegative(xml, m);
        RunNext(xml, m, st);
        StepClosedForm(xml, m, st);
        if Run(xml, n).Success? {
          forall j | 0 <= j < n
            ensures Run(xml, n).value.pads[j] == PadAt(xml, j)
          {
            if j < m {
              assert Run(xml, n).value.pads[j] == st.pads[j];
            }
          }
        }
      } else {
        assert !ClosesAtPositiveDepth(xml, m);
      }
    }
  }

  /** One step of the closed form. */
  lemma StepClosedForm(xml: string, m: nat, st: Scan)
    requires m < |xml| && ClosesAtPositiveDepth(xml, m)
    requires st.indent == Depth(xml, m) && st.indent >= 0
    requires st.afterClose <==> LastBracket(xml, m) == Some('>')
    requires |st.pads| == m
    ensures Step(xml, m, st).Success? <==> ClosesAtPositiveDepth(xml, m + 1)
    ensures Step(xml, m, st).Success? ==>
      && Step(xml, m, st).value.indent == Depth(xml, m + 1)
      && (Step(xml, m, st).value.afterClose <==> LastBracket(xml, m + 1) == Some('>'))
      && Step(xml, m, st).value.pads == st.pads + [PadAt(xml, m)]
  {
    assert ClosesAtPositiveDepth(xml, m + 1) <==> (IsCloseStart(xml, m) ==> Depth(xml, m) > 0);
    if Step(xml, m, st).Success? {
      var lead := Lead(st);
      if xml[m] == '<' {
        if IsCloseStart(xml, m) {
          assert PadAt(xml, m) == lead + Newline(st.indent - 1);
        } else {
          assert PadAt(xml, m) == lead + "";
          assert lead + "" == lead;
        }
      }
    }
  }

  /** The whole formatted text in closed form: the pads are the PadAt of each character. */
  lemma FormattedClosedForm(xml: string)
    ensures Formatted(xml).Success? <==> ClosesAtPositiveDepth(xml, |xml|)
    ensures Formatted(xml).Success? ==>
      && Run(xml, |xml|).Success?
      && Formatted(xml).value == Weave(xml, Run(xml, |xml|).value.pads)
      && forall j :: 0 <= j < |xml| ==> Run(xml, |xml|).value.pads[j] == PadAt(xml, j)
  {
    RunClosedForm(xml, |xml|);
  }

  // ---------------------------------------------------------------------
  // Only layout is inserted.

  /** The characters the indenter inserts. */
  predicate IsLayout(c: char)
  {
    c == '\n' || c == ' '
  }

  predicate IsPadding(pad: string)
  {
    forall k :: 0 <= k < |pad| ==> IsLayout(pad[k])
  }

  /** `s` without line breaks and spaces. */
  function Unpad(s: string): (r: string)
    ensures |r| <= |s|
  {
    if s == [] then []
    else Unpad(s[..|s| - 1]) + (if IsLayout(s[|s| - 1]) then [] else [s[|s| - 1]])
  }

  lemma {:induction false} UnpadAppend(a: string, b: string)
    ensures Unpad(a + b) == Unpad(a) + Unpad(b)
    decreases |b|
  {
    if b != [] {
      var b' := b[..|b| - 1];
      assert (a + b)[..|a + b| - 1] == a + b';
      UnpadAppend(a, b');
    } else {
      assert a + b == a;
    }
  }

  lemma {:induction false} UnpadPadding(pad: string)
    requires IsPadding(pad)
    ensures Unpad(pad) == []
    decreases |pad|
  {
    if pad != [] {
      UnpadPadding(pad[..|pad| - 1]);
    }
  }

  lemma {:induction false} WeaveUnpad(xml: string, pads: seq<string>)
    requires |pads| <= |xml|
    requires forall j :: 0 <= j < |pads| ==> IsPadding(pads[j])
    ensures Unpad(Weave(xml, pads)) == Unpad(xml[..|pads|])
    decreases |pads|
  {
    if pads != [] {
      var n := |pads| - 1;
      WeaveUnpad(xml, pads[..n]);
      var front := Weave(xml, pads[..n]);
      UnpadAppend(front + pads[n], [xml[n]]);
      UnpadAppend(front, pads[n]);
      UnpadPadding(pads[n]);
      UnpadAppend(xml[..n], [xml[n]]);
      assert xml[..n] + [xml[n]] == xml[..n + 1];
    }
  }

  lemma NewlineIsPadding(level: nat)
    ensures IsPadding(Newline(level))
  {
    SpacesShape(2 * level);
  }

  /** Every pad is layout, and only a `<` is ever preceded by one. */
  lemma PadAtShape(xml: string, j: nat)
    requires j < |xml| && ClosesAtPositiveDepth(xml, j + 1)
    ensures IsPadding(PadAt(xml, j))
    ensures PadAt(xml, j) != [] ==> xml[j] == '<'
  {
    DepthNeverNegative(xml, j);
    var d := Depth(xml, j);
    if xml[j] == '<' {
      var lead := if LastBracket(xml, j) == Some('>') then Newline(d) else "";
      var close := if IsCloseStart(xml, j) then Newline(d - 1) else "";
      assert PadAt(xml, j) == lead + close;
      NewlineIsPadding(d);
      if IsCloseStart(xml, j) {
        NewlineIsPadding(d - 1);
      }
      PaddingAppend(lead, close);
    }
  }

  lemma PaddingAppend(a: string, b: string)
    requires IsPadding(a) && IsPadding(b)
    ensures IsPadding(a + b)
  {
    assert forall k :: |a| <= k < |a + b| ==> (a + b)[k] == b[k - |a|];
  }

  /**
   * When formatting succeeds, the output is the input with line breaks and
   * spaces inserted in front of some `<`: removing layout from both gives
   * the same text.
   */
  lemma FormattedOnlyAddsLayout(xml: string)
    requires Formatted(xml).Success?
    ensures Unpad(Formatted(xml).value) == Unpad(xml)
  {
    FormattedClosedForm(xml);
    var pads := Run(xml, |xml|).value.pads;
    forall j | 0 <= j < |pads|
      ensures IsPadding(pads[j])
    {
      PadAtShape(xml, j);
    }
    WeaveUnpad(xml, pads);
    assert xml[..|xml|] == xml;
  }

  /** Total length of the first `j` pads. */
  function Offset(pads: seq<string>, j: nat): nat
    requires j <= |pads|
  {
    if j == 0 then 0 else Offset(pads, j - 1) + |pads[j - 1]|
  }

  lemma {:induction false} OffsetPrefix(pads: seq<string>, n: nat, j: nat)
    requires j <= n <= |pads|
    ensures Offset(pads[..n], j) == Offset(pads, j)
  {
    if j > 0 {
      OffsetPrefix(pads, n, j - 1);
    }
  }

  lemma {:induction false} OffsetMonotone(pads: seq<string>, i: nat, j: nat)
    requires i <= j <= |pads|
    ensures Offset(pads, i) <= Offset(pads, j)
    decreases j - i
  {
    if i < j {
      OffsetMonotone(pads, i, j - 1);
    }
  }

  /** Where the output holds input character `j`: after its own pad and all earlier text. */
  function Position(pads: seq<string>, j: nat): nat
    requires j < |pads|
  {
    Offset(pads, j + 1) + j
  }

  /**
   * Weaving keeps every character: input character `j` sits at Position j,
   * positions increase with `j`, and the output is exactly the characters
   * plus the pads long.
   */
  lemma {:induction false} WeavePositions(xml: string, pads: seq<string>)
    requires |pads| <= |xml|
    ensures |Weave(xml, pads)| == |pads| + Offset(pads, |pads|)
    ensures forall j :: 0 <= j < |pads| ==>
      Position(pads, j) < |Weave(xml, pads)| && Weave(xml, pads)[Position(pads, j)] == xml[j]
    decreases |pads|
  {
    if pads != [] {
      var n := |pads| - 1;
      var front := pads[..n];
      var shorter := Weave(xml, front);
      var w := Weave(xml, pads);
      assert w == shorter + pads[n] + [xml[n]];
      WeavePositions(xml, front);
      OffsetPrefix(pads, n, n);
      forall j | 0 <= j < |pads|
        ensures Position(pads, j) < |w| && w[Position(pads, j)] == xml[j]
      {
        if j < n {
          OffsetPrefix(pads, n, j + 1);
          OffsetMonotone(pads, j + 1, n);
          assert Position(front, j) == Position(pads, j) < |shorter|;
        } else {
          assert Position(pads, j) == |w| - 1;
        }
      }
    }
  }

  lemma PositionIncreasing(pads: seq<string>, i: nat, j: nat)
    requires i < j < |pads|
    ensures Position(pads, i) < Position(pads, j)
  {
    OffsetMonotone(pads, i + 1, j + 1);
  }

  /**
   * The formatter emits every input character exactly once and in order:
   * character `j` appears at Position j of the output, those positions
   * strictly increase, and everything else in the output is padding.
   */
  lemma FormattedKeepsCharacters(xml: string)
    requires Formatted(xml).Success?
    ensures var pads := Run(xml, |xml|).value.pads;
      var out := Formatted(xml).value;
      && |out| == |xml| + Offset(pads, |xml|)
      && (forall j :: 0 <= j < |xml| ==> Position(pads, j) < |out| && out[Position(pads, j)] == xml[j])
      && (forall i, j :: 0 <= i < j < |xml| ==> Position(pads, i) < Position(pads, j))
  {
    FormattedClosedForm(xml);
    var pads := Run(xml, |xml|).value.pads;
    WeavePositions(xml, pads);
    forall i, j | 0 <= i < j < |xml|
      ensures Position(pads, i) < Position(pads, j)
    {
      PositionIncreasing(pads, i, j);
    }
  }

  /** Text without any `<` comes back unchanged. */
  lemma FormatWithoutTags(xml: string)
    requires '<' !in xml
    ensures Formatted(xml) == Success(xml)
  {
    FormattedClosedForm(xml);
    assert ClosesAtPositiveDepth(xml, |xml|);
    var pads := Run(xml, |xml|).value.pads;
    forall j | 0 <= j < |xml|
      ensures pads[j] == []
    {
      PadAtShape(xml, j);
    }
    WeaveEmptyPads(xml, pads);
    assert xml[..|xml|] == xml;
  }

  lemma {:induction false} WeaveEmptyPads(xml: string, pads: seq<string>)
    requires |pads| <= |xml|
    requires forall j :: 0 <= j < |pads| ==> pads[j] == []
    ensures Weave(xml, pads) == xml[..|pads|]
    decreases |pads|
  {
    if pads != [] {
      var n := |pads| - 1;
      WeaveEmptyPads(xml, pads[..n]);
      assert xml[..n] + [xml[n]] == xml[..n + 1];
    }
  }

  // ---------------------------------------------------------------------
  // How tags move the depth.

  /** Characters that are neither `<` nor `>` leave the depth alone. */
  lemma {:induction false} DepthFlat(xml: string, a: nat, b: nat)
    requires a <= b <= |xml|
    requires forall m :: a <= m < b ==> xml[m] != '<' && xml[m] != '>'
    ensures Depth(xml, b) == Depth(xml, a)
    decreases b - a
  {
    if a < b {
      DepthFlat(xml, a, b - 1);
    }
  }

  /** A self-closing tag `<name/>` spanning [j, k] leaves the depth unchanged. */
  lemma SelfClosingKeepsDepth(xml: string, j: nat, k: nat)
    requires j + 2 <= k < |xml|
    requires xml[j] == '<' && xml[j + 1] != '/' && xml[k - 1] == '/' && xml[k] == '>'
    requires forall m :: j < m < k ==> xml[m] != '<' && xml[m] != '>'
    ensures Depth(xml, k + 1) == Depth(xml, j)
  {
    DepthFlat(xml, j + 1, k);
  }

  /** A closing tag lowers the depth by one. */
  lemma CloseLowersDepth(xml: string, j: nat)
    requires j < |xml| && IsCloseStart(xml, j)
    ensures Depth(xml, j + 1) == Depth(xml, j) - 1
  {
  }

  /**
   * An opening tag followed by text, `<name>t`, does not raise the depth, so
   * its closing tag is met one level lower than the tag itself.
   */
  lemma OpenBeforeTextKeepsDepth(xml: string, j: nat, k: nat)
    requires j < k && k + 1 < |xml|
    requires xml[j] == '<' && xml[j + 1] != '/' && xml[k] == '>' && xml[k + 1] != '<'
    requires forall m :: j < m < k ==> xml[m] != '<' && xml[m] != '>'
    ensures Depth(xml, k + 1) == Depth(xml, j)
  {
    DepthFlat(xml, j + 1, k);
    assert !RaisesLevel(xml, k);
  }

  // ---------------------------------------------------------------------
  // A document that makes the indenter fail, and the repaired indenter.

  /**
   * `<a>text</a>`: the `>` of `<a>` is followed by text, so the depth stays 0
   * and the `</` at position 7 drives the counter to -1.
   */
  lemma TextElementFails(xml: string)
    requires xml == "<a>text</a>"
    ensures Formatted(xml) == Failure(NegativePadding(7))
  {
    assert xml[0] == '<' && xml[1] == 'a' && xml[2] == '>' && xml[3] == 't';
    assert !RaisesLevel(xml, 0) && !IsCloseStart(xml, 0);
    assert !RaisesLevel(xml, 1) && !IsCloseStart(xml, 1);
    assert !RaisesLevel(xml, 2) && !IsCloseStart(xml, 2);
    assert Raises(xml, 0) == 0 && Closes(xml, 0) == 0;
    assert Raises(xml, 1) == 0 && Closes(xml, 1) == 0;
    assert Raises(xml, 2) == 0 && Closes(xml, 2) == 0;
    assert Raises(xml, 3) == 0 && Closes(xml, 3) == 0;
    DepthFlat(xml, 3, 7);
    assert IsCloseStart(xml, 7);
    RunClosedForm(xml, 7);
    RunNext(xml, 7, Run(xml, 7).value);
    RunFailureSticks(xml, 8, |xml|);
  }

  /**
   * The repaired step: where the source would pass a negative count, the
   * counter stays at 0 and the closing tag gets a bare line break.
   */
  function ClampedStep(xml: string, i: nat, st: Scan): (r: Scan)
    requires i < |xml| && st.indent >= 0
    ensures r.indent >= 0 && |r.pads| == |st.pads| + 1
  {
    match Step(xml, i, st)
    case Success(next) => next
    case Failure(_) =>
      var lead := Lead(st);
      Scan(st.pads + [lead + Newline(0)], 0, false)
  }

  function ClampedRun(xml: string, n: nat): (r: Scan)
    requires n <= |xml|
    ensures |r.pads| == n && r.indent >= 0
  {
    if n == 0 then Scan([], 0, false) else ClampedStep(xml, n - 1, ClampedRun(xml, n - 1))
  }

  /** The repaired indenter: it always produces text. */
  function ClampedFormatted(xml: string): (r: string)
    ensures |r| >= |xml|
  {
    WeaveLength(xml, ClampedRun(xml, |xml|).pads);
    Weave(xml, ClampedRun(xml, |xml|).pads)
  }

  lemma {:induction false} ClampedRunAgrees(xml: string, n: nat)
    requires n <= |xml| && Run(xml, n).Success?
    ensures ClampedRun(xml, n) == Run(xml, n).value
  {
    if n > 0 {
      RunClosedForm(xml, n);
      RunClosedForm(xml, n - 1);
      ClampedRunAgrees(xml, n - 1);
    }
  }

  /** The repair changes nothing on any input the source formats. */
  lemma ClampedAgrees(xml: string)
    requires Formatted(xml).Success?
    ensures ClampedFormatted(xml) == Formatted(xml).value
  {
    ClampedRunAgrees(xml, |xml|);
  }

  lemma {:induction false} ClampedPadsAreLayout(xml: string, n: nat)
    requires n <= |xml|
    ensures forall j :: 0 <= j < n ==> IsPadding(ClampedRun(xml, n).pads[j])
  {
    if n > 0 {
      ClampedPadsAreLayout(xml, n - 1);
      var st := ClampedRun(xml, n - 1);
      var lead := Lead(st);
      NewlineIsPadding(st.indent);
      NewlineIsPadding(0);
      if st.indent > 0 {
        NewlineIsPadding(st.indent - 1);
      }
      assert IsPadding(lead);
    }
  }

  /** The repaired indenter, like the source, only inserts layout. */
  lemma ClampedOnlyAddsLayout(xml: string)
    ensures Unpad(ClampedFormatted(xml)) == Unpad(xml)
  {
    ClampedPadsAreLayout(xml, |xml|);
    WeaveUnpad(xml, ClampedRun(xml, |xml|).pads);
    assert xml[..|xml|] == xml;
  }
}
