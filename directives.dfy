/**
 * How `run_agent` reads an assistant reply (api.py): literal substring tests
 * in a fixed order, then `split(marker)[1]` to take the payload.
 */
module Directives {
  import opened Options
  import opened Text

  const SearchMarker := "ACTION: SEARCH:"
  const CalculateMarker := "ACTION: CALCULATE:"
  const AnswerMarker := "ANSWER:"

  /** What a reply asks for; a reply with no marker is reasoning only. */
  datatype Directive = Search(query: string) | Calculate(expression: string) | Answer(text: string) | Think

  /** Where the text after the first `marker` begins. */
  function PayloadStart(content: string, marker: string): (p: nat)
    requires Contains(content, marker)
    ensures p <= |content|
  {
    Find(content, marker).value + |marker|
  }

  /**
   * The text from the end of the first `marker` up to the marker's next
   * occurrence, or to the end of the reply; `AfterMarkerIsSplit` proves it
   * is Python's `content.split(marker)[1]`.
   */
  function AfterMarker(content: string, marker: string): (r: string)
    requires marker != [] && Contains(content, marker)
    ensures !Contains(r, marker)
  {
    var rest := content[PayloadStart(content, marker)..];
    UpToFirstFree(rest, marker);
    rest[..FindOrEnd(rest, marker)]
  }

  /** The text up to the first line break; `FirstLineIsSplit` proves it is `s.split("\n")[0]`. */
  function FirstLine(s: string): (r: string)
    ensures !Contains(r, "\n")
  {
    UpToFirstFree(s, "\n");
    s[..FindOrEnd(s, "\n")]
  }

  /** The payload of a tool directive: `content.split(marker)[1].split("\n")[0].strip()`. */
  function ToolPayload(content: string, marker: string): string
    requires marker != [] && Contains(content, marker)
  {
    Strip(FirstLine(AfterMarker(content, marker)))
  }

  /** The payload of an answer: `content.split("ANSWER:")[1].strip()`. */
  function AnswerPayload(content: string): string
    requires Contains(content, AnswerMarker)
  {
    Strip(AfterMarker(content, AnswerMarker))
  }

  /**
   * The classification of a reply.  The markers are tried in the order
   * search, calculate, answer, and the first one present wins.
   */
  function Parse(content: string): (d: Directive)
    ensures d.Search? <==> Contains(content, SearchMarker)
    ensures d.Calculate? <==> !Contains(content, SearchMarker) && Contains(content, CalculateMarker)
    ensures d.Answer? <==> !Contains(content, SearchMarker) && !Contains(content, CalculateMarker)
                           && Contains(content, AnswerMarker)
  {
    if Contains(content, SearchMarker) then Search(ToolPayload(content, SearchMarker))
    else if Contains(content, CalculateMarker) then Calculate(ToolPayload(content, CalculateMarker))
    else if Contains(content, AnswerMarker) then Answer(AnswerPayload(content))
    else Think
  }

  /** The text after the first marker is `content.split(marker)[1]`. */
  lemma AfterMarkerIsSplit(content: string, marker: string)
    requires marker != [] && Contains(content, marker)
    ensures AfterMarker(content, marker) == Split(content, marker)[1]
  {
    SplitSecond(content, marker);
  }

  /** The first line is `s.split("\n")[0]`. */
  lemma FirstLineIsSplit(s: string)
    ensures FirstLine(s) == Split(s, "\n")[0]
  {
    SplitFirst(s, "\n");
  }

  /** A tool payload is the Python expression `content.split(marker)[1].split("\n")[0].strip()`. */
  lemma ToolPayloadIsSplit(content: string, marker: string)
    requires marker != [] && Contains(content, marker)
    ensures ToolPayload(content, marker) == Strip(Split(Split(content, marker)[1], "\n")[0])
  {
    AfterMarkerIsSplit(content, marker);
    FirstLineIsSplit(AfterMarker(content, marker));
  }

  /** An answer payload is the Python expression `content.split("ANSWER:")[1].strip()`. */
  lemma AnswerPayloadIsSplit(content: string)
    requires Contains(content, AnswerMarker)
    ensures AnswerPayload(content) == Strip(Split(content, AnswerMarker)[1])
  {
    AfterMarkerIsSplit(content, AnswerMarker);
  }

  /** `p` is the slice of `content` that starts at index `a`. */
  predicate SliceAt(content: string, p: string, a: nat) {
    a + |p| <= |content| && content[a..a + |p|] == p
  }

  /**
   * Where the payload after the first `marker` ends: at the next `marker`,
   * at the first line break when only the first line counts, or at the end
   * of the reply, whichever comes first.
   */
  function PayloadEnd(content: string, marker: string, firstLine: bool): (e: nat)
    requires Contains(content, marker)
    ensures PayloadStart(content, marker) <= e <= |content|
  {
    var start := PayloadStart(content, marker);
    var rest := content[start..];
    var m := FindOrEnd(rest, marker);
    var n := if firstLine then FindOrEnd(rest, "\n") else |rest|;
    start + (if m <= n then m else n)
  }

  /**
   * `split(marker)[1]` is the text from the end of the first marker up to
   * the next occurrence of the marker, or up to the end of the reply when
   * there is no second one.
   */
  lemma AfterMarkerCut(content: string, marker: string)
    requires marker != [] && Contains(content, marker)
    ensures AfterMarker(content, marker)
      == content[PayloadStart(content, marker)..PayloadEnd(content, marker, false)]
  {
    var start := PayloadStart(content, marker);
    var m := FindOrEnd(content[start..], marker);
    assert content[start..][..m] == content[start..start + m];
  }

  /**
   * A tool payload is the text from the end of the first marker up to the
   * next marker or the first line break after it, whichever comes first,
   * stripped.
   */
  lemma ToolPayloadCut(content: string, marker: string)
    requires marker != [] && Contains(content, marker)
    ensures ToolPayload(content, marker)
      == Strip(content[PayloadStart(content, marker)..PayloadEnd(content, marker, true)])
  {
    ToolLineCut(content, marker);
  }

  /** The first line of the text after the marker ends at the next marker or line break. */
  lemma ToolLineCut(content: string, marker: string)
    requires marker != [] && Contains(content, marker)
    ensures FirstLine(AfterMarker(content, marker))
      == content[PayloadStart(content, marker)..PayloadEnd(content, marker, true)]
  {
    var start := PayloadStart(content, marker);
    var rest := content[start..];
    var m := FindOrEnd(rest, marker);
    var n := FindOrEnd(rest, "\n");
    var e := if m <= n then m else n;
    assert FindOrEnd(rest[..m], "\n") == e by {
      FirstLineOfPrefix(rest, m);
    }
    assert AfterMarker(content, marker) == rest[..m];
    assert rest[..m][..e] == content[start..start + e];
    assert PayloadEnd(content, marker, true) == start + e;
  }

  /** The first line of `s[..m]` ends at `m` or at the first line break of `s`, whichever comes first. */
  lemma FirstLineOfPrefix(s: string, m: nat)
    requires m <= |s|
    ensures var n := FindOrEnd(s, "\n");
      FindOrEnd(s[..m], "\n") == (if m <= n then m else n)
  {
    FindOrEndPrefixChar(s, '\n', m);
  }

  /** An answer is the text from the end of the first "ANSWER:" up to the next one or the end, stripped. */
  lemma AnswerPayloadCut(content: string)
    requires Contains(content, AnswerMarker)
    ensures AnswerPayload(content)
      == Strip(content[PayloadStart(content, AnswerMarker)..PayloadEnd(content, AnswerMarker, false)])
  {
    AfterMarkerCut(content, AnswerMarker);
  }

  /** A slice of a text free of `marker` is free of it too. */
  lemma SliceAtFree(content: string, p: string, a: nat, marker: string)
    requires SliceAt(content, p, a) && !Contains(content, marker)
    ensures !Contains(p, marker)
  {
    SliceFree(content, marker, a, a + |p|);
  }

  /** Stripping keeps the text free of whatever it was free of. */
  lemma StripFree(s: string, marker: string)
    requires !Contains(s, marker)
    ensures !Contains(Strip(s), marker)
  {
    SliceAtFree(s, Strip(s), LeadingSpace(s), marker);
  }

  /** A tool payload holds no line break, no surrounding whitespace and no marker. */
  lemma ToolPayloadFree(content: string, marker: string)
    requires marker != [] && Contains(content, marker)
    ensures var p := ToolPayload(content, marker);
      '\n' !in p && Stripped(p) && !Contains(p, marker)
  {
    var after := AfterMarker(content, marker);
    var line := FirstLine(after);
    assert !Contains(line, marker) by {
      assert SliceAt(after, line, 0);
      SliceAtFree(after, line, 0, marker);
    }
    StripFree(line, marker);
    StripFree(line, "\n");
    ContainsChar(Strip(line), '\n');
  }

  /** A tool payload is free of any text the whole reply is free of. */
  lemma ToolPayloadKeepsFree(content: string, marker: string, other: string)
    requires marker != [] && Contains(content, marker) && !Contains(content, other)
    ensures !Contains(ToolPayload(content, marker), other)
  {
    var cut := content[PayloadStart(content, marker)..PayloadEnd(content, marker, true)];
    assert !Contains(cut, other) by {
      SliceFree(content, other, PayloadStart(content, marker), PayloadEnd(content, marker, true));
    }
    ToolPayloadCut(content, marker);
    StripFree(cut, other);
  }

  /** An answer payload holds no surrounding whitespace and no "ANSWER:". */
  lemma AnswerPayloadFree(content: string)
    requires Contains(content, AnswerMarker)
    ensures var p := AnswerPayload(content);
      Stripped(p) && !Contains(p, AnswerMarker)
  {
    StripFree(AfterMarker(content, AnswerMarker), AnswerMarker);
  }

  /** An answer payload is free of any text the whole reply is free of. */
  lemma AnswerPayloadKeepsFree(content: string, other: string)
    requires Contains(content, AnswerMarker) && !Contains(content, other)
    ensures !Contains(AnswerPayload(content), other)
  {
    var cut := content[PayloadStart(content, AnswerMarker)..PayloadEnd(content, AnswerMarker, false)];
    assert !Contains(cut, other) by {
      SliceFree(content, other, PayloadStart(content, AnswerMarker), PayloadEnd(content, AnswerMarker, false));
    }
    AnswerPayloadCut(content);
    StripFree(cut, other);
  }

  /** The reply a model writes for a directive, in the format the system prompt asks for. */
  function Render(d: Directive): string {
    match d
    case Search(q) => SearchMarker + " " + q
    case Calculate(e) => CalculateMarker + " " + e
    case Answer(a) => AnswerMarker + " " + a
    case Think => ""
  }

  /** The directives that `Render` writes in a form `Parse` reads back unchanged. */
  predicate Renderable(d: Directive) {
    match d
    case Search(q) => Stripped(q) && '\n' !in q && !Contains(q, SearchMarker)
    case Calculate(e) => Stripped(e) && '\n' !in e && !Contains(e, SearchMarker) && !Contains(e, CalculateMarker)
    case Answer(a) => Stripped(a) && !Contains(a, SearchMarker) && !Contains(a, CalculateMarker)
                      && !Contains(a, AnswerMarker)
    case Think => true
  }

  /** A marker followed by " " and a marker-free payload gives that payload back. */
  lemma ReadBack(marker: string, payload: string)
    requires marker != [] && marker[0] != ' ' && Stripped(payload) && !Contains(payload, marker)
    ensures var content := marker + " " + payload;
      Contains(content, marker) && AfterMarker(content, marker) == " " + payload
  {
    var content := marker + " " + payload;
    assert content[0..|marker|] == marker;
    assert OccursAt(content, marker, 0);
    assert Find(content, marker) == Some(0);
    assert content[|marker|..] == " " + payload;
    assert MismatchAt(" ", marker, 0);
    FreeConcat(" ", payload, marker);
  }

  /** Stripping a payload read back after " " gives the payload. */
  lemma StripAfterSpace(payload: string)
    requires Stripped(payload)
    ensures Strip(" " + payload) == payload
  {
    StripPadded(" ", payload, "");
    assert " " + payload + "" == " " + payload;
  }

  /** The first line of a text without line break is the whole text. */
  lemma FirstLineWhole(s: string)
    requires '\n' !in s
    ensures FirstLine(s) == s
  {
    ContainsChar(s, '\n');
  }

  lemma CalculateHasNoSearch(e: string)
    requires !Contains(e, SearchMarker)
    ensures !Contains(CalculateMarker + " " + e, SearchMarker)
  {
    var p := CalculateMarker + " ";
    forall k | 0 <= k < |p| ensures MismatchAt(p, SearchMarker, k) {
      if k == 0 {
        assert p[8] != SearchMarker[8];
      } else if k == 9 || k == 14 {
        assert p[k + 1] != SearchMarker[1];
      } else {
        assert p[k] != SearchMarker[0];
      }
    }
    FreeConcat(p, e, SearchMarker);
    assert p + e == CalculateMarker + " " + e;
  }

  lemma AnswerHasNoAction(a: string, marker: string)
    requires marker == SearchMarker || marker == CalculateMarker
    requires !Contains(a, marker)
    ensures !Contains(AnswerMarker + " " + a, marker)
  {
    var p := AnswerMarker + " ";
    forall k | 0 <= k < |p| ensures MismatchAt(p, marker, k) {
      if k == 0 {
        assert p[1] != marker[1];
      } else {
        assert p[k] != marker[0];
      }
    }
    FreeConcat(p, a, marker);
    assert p + a == AnswerMarker + " " + a;
  }

  /** Rendering a directive and parsing the reply gives the directive back. */
  lemma ParseRender(d: Directive)
    requires Renderable(d)
    ensures Parse(Render(d)) == d
  {
    match d
    case Search(q) =>
      ReadBack(SearchMarker, q);
      FirstLineWhole(" " + q);
      StripAfterSpace(q);
    case Calculate(e) =>
      CalculateHasNoSearch(e);
      ReadBack(CalculateMarker, e);
      FirstLineWhole(" " + e);
      StripAfterSpace(e);
    case Answer(a) =>
      AnswerHasNoAction(a, SearchMarker);
      AnswerHasNoAction(a, CalculateMarker);
      ReadBack(AnswerMarker, a);
      StripAfterSpace(a);
    case Think =>
      assert !OccursAt("", SearchMarker, 0) && !OccursAt("", CalculateMarker, 0) && !OccursAt("", AnswerMarker, 0);
  }

  lemma CalculateIsRenderable(content: string)
    requires Parse(content).Calculate?
    ensures Renderable(Parse(content))
  {
    assert Parse(content) == Calculate(ToolPayload(content, CalculateMarker));
    ToolPayloadFree(content, CalculateMarker);
    ToolPayloadKeepsFree(content, CalculateMarker, SearchMarker);
  }

  lemma AnswerIsRenderable(content: string)
    requires Parse(content).Answer?
    ensures Renderable(Parse(content))
  {
    assert Parse(content) == Answer(AnswerPayload(content));
    AnswerPayloadFree(content);
    AnswerPayloadKeepsFree(content, SearchMarker);
    AnswerPayloadKeepsFree(content, CalculateMarker);
  }

  /**
   * Every directive `Parse` produces is renderable, so rendering it and
   * parsing again gives the same directive: `Parse` yields canonical payloads.
   */
  lemma ParseIsRenderable(content: string)
    ensures Renderable(Parse(content))
    ensures Parse(Render(Parse(content))) == Parse(content)
  {
    var d := Parse(content);
    if d.Search? {
      ToolPayloadFree(content, SearchMarker);
    } else if d.Calculate? {
      CalculateIsRenderable(content);
    } else if d.Answer? {
      AnswerIsRenderable(content);
    }
    ParseRender(d);
  }

  /** The reply "ANSWER: a\nANSWER: b" holds neither action marker. */
  lemma TwoAnswersNoAction(a: string, b: string, m: string)
    requires m == SearchMarker || m == CalculateMarker
    requires !Contains(a, m) && !Contains(b, m)
    ensures !Contains(AnswerMarker + " " + a + "\n" + AnswerMarker + " " + b, m)
  {
    var first := AnswerMarker + " " + a;
    var second := AnswerMarker + " " + b;
    assert !Contains(first, m) by {
      AnswerHasNoAction(a, m);
    }
    assert !Contains("\n" + second, m) by {
      AnswerHasNoAction(b, m);
      assert MismatchAt("\n", m, 0) by {
        assert "\n"[0] != m[0];
      }
      FreeConcat("\n", second, m);
    }
    assert ("\n" + second)[0] !in m by {
      NoLineBreakInMarkers();
    }
    FreeAcrossFresh(first, "\n" + second, m);
    assert first + ("\n" + second) == AnswerMarker + " " + a + "\n" + AnswerMarker + " " + b;
  }

  /** No marker holds a line break. */
  lemma NoLineBreakInMarkers()
    ensures '\n' !in SearchMarker && '\n' !in CalculateMarker && '\n' !in AnswerMarker
  {
  }

  /** In `m + x + m + y`, with `x` free of `m` and ending outside it, the payload is `x`. */
  lemma AfterMarkerBetween(m: string, x: string, y: string)
    requires m != [] && !Contains(x, m) && x != [] && x[|x| - 1] !in m
    ensures Contains(m + x + m + y, m) && AfterMarker(m + x + m + y, m) == x
  {
    var rest := x + m + y;
    var content := m + rest;
    assert content == m + x + m + y;
    assert content[0..|m|] == m;
    assert OccursAt(content, m, 0);
    assert Find(content, m) == Some(0);
    assert content[|m|..] == rest;
    FindAfterFresh(x, m, y);
    assert rest[..|x|] == x;
  }

  lemma PaddedAnswerFree(a: string)
    requires !Contains(a, AnswerMarker)
    ensures !Contains(" " + a + "\n", AnswerMarker)
  {
    assert " "[0] != AnswerMarker[0];
    assert MismatchAt(" ", AnswerMarker, 0);
    FreeConcat(" ", a, AnswerMarker);
    FreeAcrossFresh(" " + a, "\n", AnswerMarker);
  }

  /** In "ANSWER: a\nANSWER: b" the text after the first marker is " a\n". */
  lemma TwoAnswersAfter(a: string, b: string)
    requires !Contains(a, AnswerMarker)
    ensures var content := AnswerMarker + " " + a + "\n" + AnswerMarker + " " + b;
      Contains(content, AnswerMarker) && AfterMarker(content, AnswerMarker) == " " + a + "\n"
  {
    var x := " " + a + "\n";
    PaddedAnswerFree(a);
    var y := " " + b;
    assert x[|x| - 1] !in AnswerMarker by {
      NoLineBreakInMarkers();
    }
    AfterMarkerBetween(AnswerMarker, x, y);
    assert AnswerMarker + x + AnswerMarker + y == AnswerMarker + " " + a + "\n" + AnswerMarker + " " + b;
  }

  /**
   * A second "ANSWER:" ends the answer: a reply holding two answers on
   * separate lines yields the first one only.
   */
  lemma SecondAnswerTruncates(a: string, b: string)
    requires Renderable(Answer(a))
    requires !Contains(b, SearchMarker) && !Contains(b, CalculateMarker)
    ensures Parse(AnswerMarker + " " + a + "\n" + AnswerMarker + " " + b) == Answer(a)
  {
    TwoAnswersNoAction(a, b, SearchMarker);
    TwoAnswersNoAction(a, b, CalculateMarker);
    TwoAnswersAfter(a, b);
    StripPadded(" ", a, "\n");
  }
}
