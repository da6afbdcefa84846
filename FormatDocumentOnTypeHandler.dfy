/** The handler of the Language Server Protocol request `textDocument/onTypeFormatting`
    (version 3.17 of the Language Server Protocol): the edits that format the document
    after a character was typed. The formatting service is replaced by its answers: whether
    to format on the typed character at the caret, and the text changes it proposes; the
    conversion of a change into a protocol edit is a parameter as well. */
module FormatDocumentOnTypeHandler {
  import opened Common

  /** The handler only reads the solution. */
  const MutatesSolutionState: bool := false

  const RequiresLSPSolution: bool := true

  /** A text change the formatting service proposes: the span it replaces and the new text. */
  datatype TextChange = TextChange(span: TextSpan, newText: string)

  /** `SyntaxFacts.IsNewLine`: carriage return, line feed, next line, line separator and
      paragraph separator. */
  predicate IsNewLine(c: char)
  {
    c == '\r' || c == '\n' || c == '\U{0085}' || c == '\U{2028}' || c == '\U{2029}'
  }

  /** The change does not touch the caret's line: its span does not contain the caret. */
  function KeepsCaret(position: nat): TextChange -> bool
  {
    (change: TextChange) => !change.span.Contains(position)
  }

  /** The changes that are sent: after a newline, those whose span does not contain the
      caret; after any other character, all of them. */
  function SentChanges(typed: char, position: nat, changes: seq<TextChange>): seq<TextChange>
  {
    if IsNewLine(typed) then Filter(changes, KeepsCaret(position)) else changes
  }

  /** `HandleRequestAsync`: null without a document; no edits for an empty or missing typed
      character, when the service does not format on it, or when it proposes no change;
      otherwise the sent changes as edits, in order. */
  function HandleRequest<Doc, Edit>(document: Option<Doc>, character: Option<string>, position: nat,
                                    shouldFormatOnTypedCharacter: char -> bool,
                                    textChanges: seq<TextChange>, toEdit: TextChange -> Edit)
    : (r: Option<seq<Edit>>)
    ensures document.None? <==> r.None?
    ensures document.Some? && (character.None? || character.value == "") ==> r == Some([])
    ensures document.Some? && character.Some? && character.value != [] && !shouldFormatOnTypedCharacter(character.value[0])
            ==> r == Some([])
    ensures textChanges == [] ==> r.None? || r == Some([])
  {
    if document.None? then None
    else if character.None? || character.value == "" then Some([])
    else if !shouldFormatOnTypedCharacter(character.value[0]) then Some([])
    else if textChanges == [] then Some([])
    else Some(Map(SentChanges(character.value[0], position, textChanges), toEdit))
  }

  /** When a document is formatted, an edit is sent for a proposed change exactly when the
      typed character is not a newline or the change's span does not contain the caret, and
      the edits keep the order of the changes. */
  lemma EditsAreTheChangesAwayFromTheCaret<Doc, Edit>(document: Doc, typed: string, position: nat,
                                                      shouldFormatOnTypedCharacter: char -> bool,
                                                      textChanges: seq<TextChange>, toEdit: TextChange -> Edit,
                                                      change: TextChange)
    requires typed != [] && shouldFormatOnTypedCharacter(typed[0]) && textChanges != []
    ensures var r := HandleRequest(Some(document), Some(typed), position, shouldFormatOnTypedCharacter, textChanges, toEdit);
            var sent := SentChanges(typed[0], position, textChanges);
            && r == Some(Map(sent, toEdit))
            && (change in sent <==> change in textChanges && (IsNewLine(typed[0]) ==> !change.span.Contains(position)))
  {
  }

  /** After a newline, no edit comes from a change that covers the caret: the whitespace the
      editor put on the caret's line is kept. */
  lemma NewLineKeepsTheCaretLine(typed: char, position: nat, textChanges: seq<TextChange>)
    requires IsNewLine(typed)
    ensures forall c :: c in SentChanges(typed, position, textChanges) ==> !c.span.Contains(position)
    ensures forall c :: c in textChanges && !c.span.Contains(position) ==> c in SentChanges(typed, position, textChanges)
  {
    var p := KeepsCaret(position);
    forall c | c in textChanges && !c.span.Contains(position) ensures c in Filter(textChanges, p) {
      var i :| 0 <= i < |textChanges| && textChanges[i] == c;
    }
  }

  /** Only the first typed character matters. */
  lemma OnlyTheFirstCharacterCounts<Doc, Edit>(document: Option<Doc>, a: string, b: string, position: nat,
                                               shouldFormatOnTypedCharacter: char -> bool,
                                               textChanges: seq<TextChange>, toEdit: TextChange -> Edit)
    requires a != [] && b != [] && a[0] == b[0]
    ensures HandleRequest(document, Some(a), position, shouldFormatOnTypedCharacter, textChanges, toEdit)
         == HandleRequest(document, Some(b), position, shouldFormatOnTypedCharacter, textChanges, toEdit)
  {
  }
}
