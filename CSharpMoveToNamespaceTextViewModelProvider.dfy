/** The text view model of the Move-to-Namespace dialog's namespace box: it scans the
    temporary document's lines for the namespace declaration and elides the buffer down to
    the span of the namespace name. A text snapshot is its text; its lines are split at the
    editor's line breaks (CR LF, CR, LF, NEL, LINE SEPARATOR, PARAGRAPH SEPARATOR). */
module CSharpMoveToNamespaceTextViewModelProvider {
  import opened Common
  import opened CSharpMoveToNamespaceWorkspace

  predicate IsLineBreakChar(c: char)
  {
    c == '\r' || c == '\n' || c == '\U{0085}' || c == '\U{2028}' || c == '\U{2029}'
  }

  /** `Char.IsWhiteSpace`: the Unicode space separators, line and paragraph separators, and
      the control characters TAB to CR and NEL. */
  predicate IsWhiteSpace(c: char)
  {
    c == ' ' || ('\t' <= c <= '\r') || c == '\U{0085}' || c == '\U{00A0}' || c == '\U{1680}'
    || ('\U{2000}' <= c <= '\U{200A}') || c == '\U{2028}' || c == '\U{2029}' || c == '\U{202F}'
    || c == '\U{205F}' || c == '\U{3000}'
  }

  /** The length of the line break at `i`: two for CR LF, one for another break, else zero. */
  function BreakLength(s: string, i: nat): (r: nat)
    requires i < |s|
    ensures r > 0 <==> IsLineBreakChar(s[i])
  {
    if s[i] == '\r' && i + 1 < |s| && s[i + 1] == '\n' then 2
    else if IsLineBreakChar(s[i]) then 1
    else 0
  }

  /** The end of the line starting at `i`: the next line break, or the end of the text. */
  function LineEnd(s: string, i: nat): (r: nat)
    requires i <= |s|
    ensures i <= r <= |s|
    ensures r < |s| ==> IsLineBreakChar(s[r])
    decreases |s| - i
  {
    if i == |s| || IsLineBreakChar(s[i]) then i else LineEnd(s, i + 1)
  }

  /** A line holds no line break: `LineEnd` stops at the first one. */
  lemma {:induction false} NoBreakBeforeLineEnd(s: string, i: nat)
    requires i <= |s|
    ensures forall k :: i <= k < LineEnd(s, i) ==> !IsLineBreakChar(s[k])
    decreases |s| - i
  {
    if i < |s| && !IsLineBreakChar(s[i]) {
      NoBreakBeforeLineEnd(s, i + 1);
    }
  }

  /** A snapshot line: where it starts and its text without the line break. */
  datatype Line = Line(start: nat, text: string)

  /** The lines from offset `i` on; a text ending in a line break has a last, empty line. */
  function LinesFrom(s: string, i: nat): (r: seq<Line>)
    requires i <= |s|
    ensures |r| >= 1
    decreases |s| - i
  {
    var e := LineEnd(s, i);
    [Line(i, s[i..e])] + (if e == |s| then [] else LinesFrom(s, e + BreakLength(s, e)))
  }

  function Lines(snapshot: string): seq<Line>
  {
    LinesFrom(snapshot, 0)
  }

  /** Where `TrimStart` stops: the first offset at or after `i` that is not white space. */
  function FirstNonWhiteSpace(s: string, i: nat): (r: nat)
    requires i <= |s|
    ensures i <= r <= |s|
    ensures r < |s| ==> !IsWhiteSpace(s[r])
    decreases |s| - i
  {
    if i < |s| && IsWhiteSpace(s[i]) then FirstNonWhiteSpace(s, i + 1) else i
  }

  /** Where `TrimEnd` stops: the end, at most `j` and at least `lo`, of the text once the
      white space before `j` is removed. */
  function EndOfNonWhiteSpace(s: string, j: nat, lo: nat): (r: nat)
    requires lo <= j <= |s|
    ensures lo <= r <= j
    ensures r > lo ==> !IsWhiteSpace(s[r - 1])
    decreases j
  {
    if j > lo && IsWhiteSpace(s[j - 1]) then EndOfNonWhiteSpace(s, j - 1, lo) else j
  }

  /** `String.Trim()`: white space removed at both ends. */
  function Trim(s: string): string
  {
    var i := FirstNonWhiteSpace(s, 0);
    s[i..EndOfNonWhiteSpace(s, |s|, i)]
  }

  lemma {:induction false} SkippedAreWhiteSpace(s: string, i: nat)
    requires i <= |s|
    ensures forall k :: i <= k < FirstNonWhiteSpace(s, i) ==> IsWhiteSpace(s[k])
    decreases |s| - i
  {
    if i < |s| && IsWhiteSpace(s[i]) {
      SkippedAreWhiteSpace(s, i + 1);
    }
  }

  lemma {:induction false} DroppedAreWhiteSpace(s: string, j: nat, lo: nat)
    requires lo <= j <= |s|
    ensures forall k :: EndOfNonWhiteSpace(s, j, lo) <= k < j ==> IsWhiteSpace(s[k])
    decreases j
  {
    if j > lo && IsWhiteSpace(s[j - 1]) {
      DroppedAreWhiteSpace(s, j - 1, lo);
    }
  }

  /** `Trim` keeps the middle of the text: it removes only white space, and what it keeps
      is empty or neither starts nor ends with white space. */
  lemma TrimKeepsTheMiddle(s: string)
    ensures exists i, j :: 0 <= i <= j <= |s| && Trim(s) == s[i..j]
                           && (forall k :: 0 <= k < i ==> IsWhiteSpace(s[k]))
                           && (forall k :: j <= k < |s| ==> IsWhiteSpace(s[k]))
    ensures Trim(s) != [] ==> !IsWhiteSpace(Trim(s)[0]) && !IsWhiteSpace(Trim(s)[|Trim(s)| - 1])
  {
    var i := FirstNonWhiteSpace(s, 0);
    var j := EndOfNonWhiteSpace(s, |s|, i);
    SkippedAreWhiteSpace(s, 0);
    DroppedAreWhiteSpace(s, |s|, i);
    assert Trim(s) == s[i..j];
    assert forall k :: 0 <= k < i ==> IsWhiteSpace(s[k]);
    assert forall k :: j <= k < |s| ==> IsWhiteSpace(s[k]);
    if i < j {
      assert Trim(s)[0] == s[i];
      assert Trim(s)[|Trim(s)| - 1] == s[j - 1];
    }
  }

  /** Ordinal `StartsWith`. */
  predicate StartsWith(s: string, prefix: string)
  {
    |prefix| <= |s| && s[..|prefix|] == prefix
  }

  const NamespaceKeyword: string := "namespace"
  /** `"namespace ".Length`. */
  const Offset: nat := 10

  /** Why no span is produced: a span outside the snapshot or of negative length, or no
      namespace line. */
  datatype SpanError = ArgumentOutOfRange | NamespaceSpanNotFound

  predicate IsNamespaceLine(line: Line)
  {
    StartsWith(Trim(line.text), NamespaceKeyword)
  }

  /** The span cut from a namespace line: ten characters after the untrimmed start, as long
      as the trimmed text minus ten; it must be a valid span of the snapshot. */
  function SpanOfLine(snapshot: string, line: Line): (r: Result<TextSpan, SpanError>)
    ensures r.Ok? <==> |Trim(line.text)| >= Offset && line.start + |Trim(line.text)| <= |snapshot|
    ensures r.Ok? ==> r.value == TextSpan(line.start + Offset, |Trim(line.text)| - Offset)
  {
    var length := |Trim(line.text)| - Offset;
    if length < 0 || line.start + Offset + length > |snapshot| then Err(ArgumentOutOfRange)
    else Ok(TextSpan(line.start + Offset, length))
  }

  /** The index of the first line at or after `i` whose trimmed text starts with
      `namespace`, or `|lines|` when there is none. */
  function FirstNamespaceLine(lines: seq<Line>, i: nat): (r: nat)
    requires i <= |lines|
    ensures i <= r <= |lines|
    ensures r < |lines| ==> IsNamespaceLine(lines[r])
    ensures forall j :: i <= j < r ==> !IsNamespaceLine(lines[j])
    decreases |lines| - i
  {
    if i == |lines| || IsNamespaceLine(lines[i]) then i else FirstNamespaceLine(lines, i + 1)
  }

  /** A line that is the first namespace line from `m` on is the one the search finds. */
  lemma {:induction false} FirstNamespaceLineAt(lines: seq<Line>, m: nat, i: nat)
    requires m <= i <= |lines|
    requires forall j :: m <= j < i ==> !IsNamespaceLine(lines[j])
    requires i == |lines| || IsNamespaceLine(lines[i])
    ensures FirstNamespaceLine(lines, m) == i
    decreases i - m
  {
    if m < i {
      FirstNamespaceLineAt(lines, m + 1, i);
    }
  }

  /** The result of `GetNamespaceSpan`: the span of the first line, in line order, whose
      trimmed text starts with `namespace`, or a failure when there is none. */
  function NamespaceSpan(snapshot: string): (r: Result<TextSpan, SpanError>)
    ensures r.Ok? ==> r.value.start + r.value.length <= |snapshot|
  {
    var lines := Lines(snapshot);
    var k := FirstNamespaceLine(lines, 0);
    if k == |lines| then Err(NamespaceSpanNotFound) else SpanOfLine(snapshot, lines[k])
  }

  /** No span is found exactly when no line is a namespace line; otherwise the span is the
      one cut from the first namespace line, and that cut either succeeds or fails with
      `ArgumentOutOfRange`. */
  lemma NamespaceSpanIsFirstNamespaceLine(snapshot: string)
    ensures var lines := Lines(snapshot);
            && (NamespaceSpan(snapshot) == Err(NamespaceSpanNotFound)
                <==> forall i :: 0 <= i < |lines| ==> !IsNamespaceLine(lines[i]))
            && (NamespaceSpan(snapshot) != Err(NamespaceSpanNotFound) ==>
                  exists i :: 0 <= i < |lines| && IsNamespaceLine(lines[i])
                              && (forall j :: 0 <= j < i ==> !IsNamespaceLine(lines[j]))
                              && NamespaceSpan(snapshot) == SpanOfLine(snapshot, lines[i]))
  {
    var lines := Lines(snapshot);
    var k := FirstNamespaceLine(lines, 0);
    if k < |lines| {
      assert SpanOfLine(snapshot, lines[k]) != Err(NamespaceSpanNotFound);
    }
  }

  /** `GetNamespaceSpan`: the line loop with its early return and its final throw. */
  method GetNamespaceSpan(snapshot: string) returns (r: Result<TextSpan, SpanError>)
    ensures r == NamespaceSpan(snapshot)
  {
    var lines := Lines(snapshot);
    var totalLineNumber := |lines|;
    for i := 0 to totalLineNumber
      invariant forall j :: 0 <= j < i ==> !IsNamespaceLine(lines[j])
    {
      var currentLine := lines[i];
      var text := Trim(currentLine.text);
      if StartsWith(text, NamespaceKeyword) {
        FirstNamespaceLineAt(lines, 0, i);
        assert SpanOfLine(snapshot, currentLine) == NamespaceSpan(snapshot);
        var offset := |"namespace "|;
        var length := |text| - offset;
        if length < 0 || currentLine.start + offset + length > |snapshot| {
          return Err(ArgumentOutOfRange);
        }
        return Ok(TextSpan(currentLine.start + offset, length));
      }
      assert !IsNamespaceLine(lines[i]);
    }
    FirstNamespaceLineAt(lines, 0, |lines|);
    return Err(NamespaceSpanNotFound);
  }

  /** The elided view: the snapshot's text restricted to the given spans. */
  datatype TextViewModel = ElisionBufferTextViewModel(visibleSpans: seq<TextSpan>)

  /** `CreateTextViewModel`: a view showing only the namespace span. */
  method CreateTextViewModel(snapshot: string) returns (r: Result<TextViewModel, SpanError>)
    ensures r.Ok? <==> NamespaceSpan(snapshot).Ok?
    ensures r.Ok? ==> r.value.visibleSpans == [NamespaceSpan(snapshot).value]
  {
    var namespaceSpan := GetNamespaceSpan(snapshot);
    if namespaceSpan.Err? {
      return Err(namespaceSpan.error);
    }
    return Ok(ElisionBufferTextViewModel([namespaceSpan.value]));
  }

  // ---------------------------------------------------------------------------------------
  // Round trip with the template of the temporary document

  lemma {:induction false} LineEndAt(s: string, i: nat, j: nat)
    requires i <= j <= |s|
    requires forall k :: i <= k < j ==> !IsLineBreakChar(s[k])
    requires j == |s| || IsLineBreakChar(s[j])
    ensures LineEnd(s, i) == j
    decreases j - i
  {
    if i < j {
      LineEndAt(s, i + 1, j);
    }
  }

  /** A namespace name the scan reads back: not empty, no line break inside, no white
      space at its end. */
  predicate IsPlainName(ns: string)
  {
    ns != [] && !IsWhiteSpace(ns[|ns| - 1]) && forall k :: 0 <= k < |ns| ==> !IsLineBreakChar(ns[k])
  }

  /** One step of the line split: a line `i..j` ended by the break at `j`. */
  lemma LinesFromStep(s: string, i: nat, j: nat)
    requires i <= j < |s|
    requires forall k :: i <= k < j ==> !IsLineBreakChar(s[k])
    requires IsLineBreakChar(s[j])
    ensures j + BreakLength(s, j) <= |s|
    ensures LinesFrom(s, i) == [Line(i, s[i..j])] + LinesFrom(s, j + BreakLength(s, j))
  {
    LineEndAt(s, i, j);
  }

  /** At the end of the text there is one, empty, line left. */
  lemma LastLine(s: string)
    ensures LinesFrom(s, |s|) == [Line(|s|, "")]
  {
    assert LineEnd(s, |s|) == |s|;
    assert s[|s|..|s|] == "";
  }

  /** The text holds a line break of convention `b` at `i`. */
  predicate BreakIs(s: string, i: nat, b: LineBreak)
  {
    match b
    case LF => i < |s| && s[i] == '\n'
    case CRLF => i + 1 < |s| && s[i] == '\r' && s[i + 1] == '\n'
  }

  /** A line break `n` characters long at `j`. */
  predicate BreakOfLength(s: string, j: nat, n: nat)
  {
    j < |s| && IsLineBreakChar(s[j]) && j + n <= |s| && BreakLength(s, j) == n
  }

  /** A line break of convention `b` is one break of `NewLine(b)`'s length. */
  lemma BreakAt(s: string, i: nat, b: LineBreak)
    requires BreakIs(s, i, b)
    ensures BreakOfLength(s, i, |NewLine(b)|)
  {
  }

  /** `NewLine(b)` placed between `x` and `y` is a break of convention `b` at `|x|`. */
  lemma BreakBetween(s: string, x: string, y: string, b: LineBreak)
    requires s == x + NewLine(b) + y
    ensures BreakIs(s, |x|, b)
  {
    assert s[|x|] == NewLine(b)[0];
    if b == CRLF {
      assert s[|x| + 1] == NewLine(b)[1];
    }
  }

  /** The positions of the template's first pieces: a break, a line `t` and a break. */
  lemma HeadPieces(s: string, t: string, tail: string, b: LineBreak)
    requires s == NewLine(b) + t + NewLine(b) + tail
    ensures var n := |NewLine(b)|;
            && BreakIs(s, 0, b)
            && s[n..n + |t|] == t
            && BreakIs(s, n + |t|, b)
  {
    var nl := NewLine(b);
    BreakBetween(s, [], t + nl + tail, b);
    BreakBetween(s, nl + t, tail, b);
    assert s[|nl|..|nl| + |t|] == t;
  }

  /** The positions of the template's last pieces: `{`, a break, `}` and a break, after
      `head`. */
  lemma BracePieces(s: string, head: string, b: LineBreak)
    requires s == head + ("{" + NewLine(b) + "}" + NewLine(b))
    ensures var n := |NewLine(b)|;
            && |s| == |head| + 2 * n + 2
            && s[|head|] == '{'
            && BreakIs(s, |head| + 1, b)
            && s[|head| + n + 1] == '}'
            && BreakIs(s, |head| + n + 2, b)
  {
    var nl := NewLine(b);
    BreakBetween(s, head + "{", "}" + nl, b);
    BreakBetween(s, head + "{" + nl + "}", [], b);
    assert s[|head|] == "{"[0];
    assert s[|head| + |nl| + 1] == "}"[0];
  }

  /** The positions of the template's pieces in a text made of a break, a line `t`, a break,
      `{`, a break, `}` and a break. */
  lemma PiecesOfTemplateText(s: string, t: string, b: LineBreak)
    requires s == NewLine(b) + t + NewLine(b) + ("{" + NewLine(b) + "}" + NewLine(b))
    ensures var n := |NewLine(b)|;
            var a := n + |t|;
            && |s| == a + 3 * n + 2
            && BreakIs(s, 0, b)
            && s[n..a] == t
            && BreakIs(s, a, b)
            && s[a + n] == '{'
            && BreakIs(s, a + n + 1, b)
            && s[a + 2 * n + 1] == '}'
            && BreakIs(s, a + 2 * n + 2, b)
  {
    var nl := NewLine(b);
    HeadPieces(s, t, "{" + nl + "}" + nl, b);
    BracePieces(s, nl + t + nl, b);
  }

  /** The template's pieces, as breaks of length `n`. */
  predicate TemplateShape(s: string, t: string, n: nat)
  {
    var a := n + |t|;
    && |s| == a + 3 * n + 2
    && BreakOfLength(s, 0, n)
    && s[n..a] == t
    && (forall k :: n <= k < a ==> !IsLineBreakChar(s[k]))
    && BreakOfLength(s, a, n)
    && s[a + n] == '{'
    && BreakOfLength(s, a + n + 1, n)
    && s[a + 2 * n + 1] == '}'
    && BreakOfLength(s, a + 2 * n + 2, n)
  }

  /** The pieces of the template, position by position. */
  lemma TemplatePieces(ns: string, b: LineBreak)
    requires forall k :: 0 <= k < |ns| ==> !IsLineBreakChar(ns[k])
    ensures TemplateShape(GetDocumentText(ns, b), "namespace " + ns, |NewLine(b)|)
  {
    var s := GetDocumentText(ns, b);
    var t := "namespace " + ns;
    var n := |NewLine(b)|;
    var a := n + |t|;
    PiecesOfTemplateText(s, t, b);
    BreakAt(s, 0, b);
    BreakAt(s, a, b);
    BreakAt(s, a + n + 1, b);
    BreakAt(s, a + 2 * n + 2, b);
    NoBreakInNamespaceText(ns);
    NoBreakInSlice(s, t, n);
  }

  /** `namespace <ns>` has no line break when `ns` has none. */
  lemma NoBreakInNamespaceText(ns: string)
    requires forall k :: 0 <= k < |ns| ==> !IsLineBreakChar(ns[k])
    ensures var t := "namespace " + ns; forall k :: 0 <= k < |t| ==> !IsLineBreakChar(t[k])
  {
    var t := "namespace " + ns;
    forall k | 0 <= k < |t| ensures !IsLineBreakChar(t[k]) {
      if k < 10 {
        assert t[k] == "namespace "[k];
      } else {
        assert t[k] == ns[k - 10];
      }
    }
  }

  /** A text `t` without line breaks, found at `i`, puts none there. */
  lemma NoBreakInSlice(s: string, t: string, i: nat)
    requires forall k :: 0 <= k < |t| ==> !IsLineBreakChar(t[k])
    requires i + |t| <= |s| && s[i..i + |t|] == t
    ensures forall k :: i <= k < i + |t| ==> !IsLineBreakChar(s[k])
  {
    forall k | i <= k < i + |t| ensures !IsLineBreakChar(s[k]) {
      assert s[k] == t[k - i];
    }
  }

  /** The first two lines of the template: the empty line and the line `t`. */
  lemma TemplateHeadLines(s: string, t: string, n: nat)
    requires TemplateShape(s, t, n)
    ensures LinesFrom(s, 0) == [Line(0, "")] + ([Line(n, t)] + LinesFrom(s, n + |t| + n))
  {
    var a := n + |t|;
    assert BreakLength(s, 0) == n && BreakLength(s, a) == n;
    LinesFromStep(s, 0, 0);
    assert s[0..0] == "";
    assert LinesFrom(s, 0) == [Line(0, "")] + LinesFrom(s, n);
    LinesFromStep(s, n, a);
    assert LinesFrom(s, n) == [Line(n, t)] + LinesFrom(s, a + n);
  }

  /** A line of one character `c`, at `i`, ended by a break `n` characters long. */
  lemma OneCharLine(s: string, i: nat, c: char, n: nat)
    requires i < |s| && s[i] == c && !IsLineBreakChar(c) && BreakOfLength(s, i + 1, n)
    ensures LinesFrom(s, i) == [Line(i, [c])] + LinesFrom(s, i + 1 + n)
  {
    assert s[i..i + 1] == [c];
    LinesFromStep(s, i, i + 1);
  }

  /** The last three lines of the template: `{`, `}` and the empty line after the final
      break. */
  lemma TemplateBraceLines(s: string, t: string, n: nat)
    requires TemplateShape(s, t, n)
    ensures var i := n + |t| + n;
            LinesFrom(s, i) == [Line(i, "{")] + ([Line(i + n + 1, "}")] + [Line(|s|, "")])
  {
    var i := n + |t| + n;
    LastLine(s);
    OneCharLine(s, i + n + 1, '}', n);
    OneCharLine(s, i, '{', n);
  }

  /** The line split of any text made of the template's pieces around a line `t`. */
  lemma LinesOfTemplatePieces(s: string, t: string, n: nat)
    requires TemplateShape(s, t, n)
    ensures var a := n + |t|;
            var lines := LinesFrom(s, 0);
            && |lines| == 5
            && lines[0] == Line(0, "") && lines[1] == Line(n, t) && lines[2] == Line(a + n, "{")
            && lines[3] == Line(a + 2 * n + 1, "}") && lines[4] == Line(a + 3 * n + 2, "")
  {
    var p2 := n + |t| + n;
    TemplateHeadLines(s, t, n);
    TemplateBraceLines(s, t, n);
    FiveLines(LinesFrom(s, 0), LinesFrom(s, p2), Line(0, ""), Line(n, t), Line(p2, "{"), Line(p2 + n + 1, "}"),
              Line(|s|, ""));
  }

  lemma FiveLines(lines: seq<Line>, rest: seq<Line>, l0: Line, l1: Line, l2: Line, l3: Line, l4: Line)
    requires lines == [l0] + ([l1] + rest) && rest == [l2] + ([l3] + [l4])
    ensures |lines| == 5 && lines[0] == l0 && lines[1] == l1 && lines[2] == l2 && lines[3] == l3 && lines[4] == l4
  {
  }

  /** The template has five lines: empty, `namespace <ns>`, `{`, `}`, and the empty line after
      the final break. */
  lemma TemplateLines(ns: string, b: LineBreak)
    requires forall k :: 0 <= k < |ns| ==> !IsLineBreakChar(ns[k])
    ensures var n := |NewLine(b)|;
            var a := n + 10 + |ns|;
            var lines := Lines(GetDocumentText(ns, b));
            && |lines| == 5
            && lines[0] == Line(0, "") && lines[1] == Line(n, "namespace " + ns) && lines[2] == Line(a + n, "{")
            && lines[3] == Line(a + 2 * n + 1, "}") && lines[4] == Line(a + 3 * n + 2, "")
  {
    TemplatePieces(ns, b);
    LinesOfTemplatePieces(GetDocumentText(ns, b), "namespace " + ns, |NewLine(b)|);
  }

  /** A `namespace <ns>` line for a plain name is a namespace line, and trimming leaves it
      as it is. */
  lemma TrimOfPlainNamespaceLine(ns: string)
    requires IsPlainName(ns)
    ensures Trim("namespace " + ns) == "namespace " + ns
    ensures StartsWith("namespace " + ns, NamespaceKeyword)
  {
    var t := "namespace " + ns;
    assert t[0] == 'n';
    assert FirstNonWhiteSpace(t, 0) == 0;
    assert t[|t| - 1] == ns[|ns| - 1];
    assert EndOfNonWhiteSpace(t, |t|, 0) == |t|;
    assert t[..9] == NamespaceKeyword;
  }

  /** Round trip: scanning the template made for a plain namespace name finds line 1, and
      the span covers exactly the name. */
  lemma NamespaceSpanOfTemplate(ns: string, b: LineBreak)
    requires IsPlainName(ns)
    ensures var text := GetDocumentText(ns, b);
            NamespaceSpan(text) == Ok(TextSpan(|NewLine(b)| + 10, |ns|))
            && text[|NewLine(b)| + 10..|NewLine(b)| + 10 + |ns|] == ns
  {
    var text := GetDocumentText(ns, b);
    TemplateLines(ns, b);
    TrimOfPlainNamespaceLine(ns);
    var lines := Lines(text);
    var line1 := Line(|NewLine(b)|, "namespace " + ns);
    assert lines[1] == line1;
    assert Trim(lines[0].text) == "";
    assert !IsNamespaceLine(lines[0]);
    assert IsNamespaceLine(line1);
    assert FirstNamespaceLine(lines, 0) == 1;
    assert SpanOfLine(text, line1) == Ok(TextSpan(|NewLine(b)| + 10, |ns|));
  }

  /** A bare `namespace` line (an empty name) yields a negative length, which the span
      constructor rejects. */
  lemma EmptyNamespaceNameIsRejected(b: LineBreak)
    ensures NamespaceSpan(GetDocumentText("", b)) == Err(ArgumentOutOfRange)
  {
    var text := GetDocumentText("", b);
    TemplateLines("", b);
    var lines := Lines(text);
    var t := "namespace ";
    assert lines[1].text == t;
    assert FirstNonWhiteSpace(t, 0) == 0 by { assert t[0] == 'n'; }
    assert EndOfNonWhiteSpace(t, 10, 0) == 9 by {
      assert IsWhiteSpace(t[9]) && !IsWhiteSpace(t[8]);
      assert EndOfNonWhiteSpace(t, 9, 0) == 9;
    }
    assert t[0..9] == NamespaceKeyword;
    assert Trim(lines[1].text) == NamespaceKeyword;
    assert Trim(lines[0].text) == "";
    assert !IsNamespaceLine(lines[0]);
    assert IsNamespaceLine(lines[1]);
    assert FirstNamespaceLine(lines, 0) == 1;
  }
}
