/** The temporary C# document behind the Move-to-Namespace dialog's namespace box. Its text
    is a fixed template around the original namespace name, which is inserted verbatim. The
    template's line breaks are the ones of the verbatim string in the source file; both
    conventions are modelled. */
module CSharpMoveToNamespaceWorkspace {

  datatype LineBreak = LF | CRLF

  function NewLine(b: LineBreak): (r: string)
    ensures 1 <= |r| <= 2
  {
    match b
    case LF => "\n"
    case CRLF => "\r\n"
  }

  /** `GetDocumentText`: an empty line, `namespace <ns>`, `{`, `}`, and a final line break. */
  function GetDocumentText(originalNamespace: string, b: LineBreak): (r: string)
    ensures |r| == 4 * |NewLine(b)| + 12 + |originalNamespace|
    ensures r[|NewLine(b)| + 10..|NewLine(b)| + 10 + |originalNamespace|] == originalNamespace
  {
    var nl := NewLine(b);
    var r := nl + ("namespace " + originalNamespace) + nl + ("{" + nl + "}" + nl);
    assert r[|nl| + 10..|nl| + 10 + |originalNamespace|] == originalNamespace by {
      assert r == (nl + "namespace ") + originalNamespace + (nl + ("{" + nl + "}" + nl));
    }
    r
  }
}
