/** The C# service that finds where inline parameter-name hints go: for each argument of a
    call, an indexer access or an attribute that does not already name its parameter, a hint
    at the start of the argument, with the parameter the argument binds to and a kind that
    says what the argument is. `DetermineParameter` is the semantic model's answer and is a
    parameter here; the hint buffer is a class whose list the methods append to. */
module CSharpInlineParameterNameHintsService {
  import opened Common

  datatype PostfixKind = SuppressNullableWarning | OtherPostfix

  /** The argument expressions the classifier tells apart; every other expression is
      `OtherExpression`. */
  datatype Expression =
    | LiteralExpression
    | InterpolatedStringExpression
    | ObjectCreationExpression
    | CastExpression(expression: Expression)
    | PrefixUnaryExpression(operand: Expression)
    | PostfixUnaryExpression(kind: PostfixKind, operand: Expression)
    | OtherExpression

  datatype HintKind = Literal | ObjectCreation | Other

  datatype Parameter = Parameter(name: string)

  /** An argument of an argument list: the name in `name:` if present. */
  datatype Argument = Argument(id: nat, spanStart: nat, nameColon: Option<string>, expression: Expression)

  /** An attribute argument: the name in `name =` and the name in `name:`, if present. */
  datatype AttributeArgument = AttributeArgument(id: nat, spanStart: nat, nameEquals: Option<string>,
                                                 nameColon: Option<string>, expression: Expression)

  /** The node the service is asked about: a parenthesised or bracketed argument list (both
      `BaseArgumentListSyntax`), an attribute argument list, or any other node. */
  datatype ArgumentListNode =
    | ArgumentList(arguments: seq<Argument>)
    | BracketedArgumentList(arguments: seq<Argument>)
    | AttributeArgumentList(attributeArguments: seq<AttributeArgument>)
    | OtherNode

  /** One buffer entry: the position, the argument node (by id), the parameter if any, and
      the kind. */
  datatype Hint = Hint(position: nat, argument: nat, parameter: Option<Parameter>, kind: HintKind)

  // ---------------------------------------------------------------------------------------
  // GetKind

  /** `GetKind`: literals and interpolated strings are literals, object creations are object
      creations, a cast, a prefix operator or a `!` suppression is looked through, and
      anything else is `Other`. */
  function GetKind(arg: Expression): HintKind
  {
    match arg
    case LiteralExpression => Literal
    case InterpolatedStringExpression => Literal
    case ObjectCreationExpression => ObjectCreation
    case CastExpression(e) => GetKind(e)
    case PrefixUnaryExpression(e) => GetKind(e)
    case PostfixUnaryExpression(SuppressNullableWarning, e) => GetKind(e)
    case _ => Other
  }

  /** The expressions the classifier looks through. */
  predicate IsTransparent(e: Expression)
  {
    e.CastExpression? || e.PrefixUnaryExpression? || (e.PostfixUnaryExpression? && e.kind == SuppressNullableWarning)
  }

  /** The expression left once casts, prefix operators and `!` are stripped. */
  function Core(e: Expression): (r: Expression)
    ensures !IsTransparent(r)
  {
    match e
    case CastExpression(x) => Core(x)
    case PrefixUnaryExpression(x) => Core(x)
    case PostfixUnaryExpression(SuppressNullableWarning, x) => Core(x)
    case _ => e
  }

  /** The kind of an expression that is not looked through. */
  function Classify(e: Expression): HintKind
  {
    if e.LiteralExpression? || e.InterpolatedStringExpression? then Literal
    else if e.ObjectCreationExpression? then ObjectCreation
    else Other
  }

  /** `GetKind` is the kind of the innermost expression under casts, prefix operators and
      `!`: `(object)"s"`, `-1` and `new C()!` are a literal, a literal and an object creation,
      while `x++` is `Other` whatever `x` is. */
  lemma {:induction false} GetKindIsKindOfCore(e: Expression)
    ensures GetKind(e) == Classify(Core(e))
    ensures GetKind(e) == Literal <==> Core(e).LiteralExpression? || Core(e).InterpolatedStringExpression?
    ensures GetKind(e) == ObjectCreation <==> Core(e).ObjectCreationExpression?
  {
    match e
    case CastExpression(x) => GetKindIsKindOfCore(x);
    case PrefixUnaryExpression(x) => GetKindIsKindOfCore(x);
    case PostfixUnaryExpression(k, x) =>
      if k == SuppressNullableWarning {
        GetKindIsKindOfCore(x);
      }
    case _ =>
  }

  // ---------------------------------------------------------------------------------------
  // The hints of one list, as values

  /** An attribute argument gets a hint unless it names its target with `=` or `:`. */
  predicate IsPositionalAttributeArgument(a: AttributeArgument)
  {
    a.nameEquals.None? && a.nameColon.None?
  }

  /** The hint of an attribute argument: at its start, with its parameter and its kind. */
  function AttributeHint(a: AttributeArgument, determine: AttributeArgument -> Option<Parameter>): Hint
  {
    Hint(a.spanStart, a.id, determine(a), GetKind(a.expression))
  }

  /** The hints of an attribute argument list, in argument order. */
  function AttributeHints(arguments: seq<AttributeArgument>, determine: AttributeArgument -> Option<Parameter>): seq<Hint>
  {
    if arguments == [] then []
    else
      var last := arguments[|arguments| - 1];
      AttributeHints(arguments[..|arguments| - 1], determine)
        + (if IsPositionalAttributeArgument(last) then [AttributeHint(last, determine)] else [])
  }

  /** A hint is produced exactly for each attribute argument without `name =` and without
      `name:`, at its start, with its parameter and the kind of its expression. */
  lemma {:induction false} AttributeHintsAreThePositionalArguments(arguments: seq<AttributeArgument>,
                                                                  determine: AttributeArgument -> Option<Parameter>, h: Hint)
    ensures h in AttributeHints(arguments, determine)
        <==> exists i :: 0 <= i < |arguments| && IsPositionalAttributeArgument(arguments[i])
                         && h == Hint(arguments[i].spanStart, arguments[i].id, determine(arguments[i]), GetKind(arguments[i].expression))
  {
    if arguments != [] {
      var n := |arguments| - 1;
      var init := arguments[..n];
      AttributeHintsAreThePositionalArguments(init, determine, h);
      if h in AttributeHints(init, determine) {
        var i :| 0 <= i < |init| && IsPositionalAttributeArgument(init[i]) && h == AttributeHint(init[i], determine);
        assert arguments[i] == init[i];
      } else if h in AttributeHints(arguments, determine) {
        assert IsPositionalAttributeArgument(arguments[n]) && h == AttributeHint(arguments[n], determine);
      }
      if exists i :: 0 <= i < |arguments| && IsPositionalAttributeArgument(arguments[i]) && h == AttributeHint(arguments[i], determine) {
        var i :| 0 <= i < |arguments| && IsPositionalAttributeArgument(arguments[i]) && h == AttributeHint(arguments[i], determine);
        if i < n {
          assert init[i] == arguments[i];
        }
      }
    }
  }

  /** `presentNames`: the names of the arguments written as `name: value`. */
  function PresentNames(arguments: seq<Argument>): set<string>
  {
    if arguments == [] then {}
    else
      var last := arguments[|arguments| - 1];
      PresentNames(arguments[..|arguments| - 1]) + (if last.nameColon.Some? then {last.nameColon.value} else {})
  }

  /** A name is present exactly when some argument is written with it before a colon. */
  lemma {:induction false} PresentNamesAreTheColonNames(arguments: seq<Argument>, name: string)
    ensures name in PresentNames(arguments) <==> exists i :: 0 <= i < |arguments| && arguments[i].nameColon == Some(name)
  {
    if arguments != [] {
      var init := arguments[..|arguments| - 1];
      PresentNamesAreTheColonNames(init, name);
      if exists i :: 0 <= i < |init| && init[i].nameColon == Some(name) {
        var i :| 0 <= i < |init| && init[i].nameColon == Some(name);
        assert arguments[i] == init[i];
      }
      if exists i :: 0 <= i < |arguments| && arguments[i].nameColon == Some(name) {
        var i :| 0 <= i < |arguments| && arguments[i].nameColon == Some(name);
        if i < |init| {
          assert init[i] == arguments[i];
        }
      }
    }
  }

  /** An argument gets a hint unless it has `name:` or the parameter it binds to has a name
      that another argument already gives with `name:`. */
  predicate GetsHint(presentNames: set<string>, determine: Argument -> Option<Parameter>, a: Argument)
  {
    a.nameColon.None? && !(determine(a).Some? && determine(a).value.name in presentNames)
  }

  /** The hint of an argument: at its start, with its parameter and its kind. */
  function ArgumentHint(a: Argument, determine: Argument -> Option<Parameter>): Hint
  {
    Hint(a.spanStart, a.id, determine(a), GetKind(a.expression))
  }

  /** The hints of the arguments, in argument order, given the present names. */
  function HintsGivenPresentNames(arguments: seq<Argument>, presentNames: set<string>, determine: Argument -> Option<Parameter>): seq<Hint>
  {
    if arguments == [] then []
    else
      var last := arguments[|arguments| - 1];
      HintsGivenPresentNames(arguments[..|arguments| - 1], presentNames, determine)
        + (if GetsHint(presentNames, determine, last) then [ArgumentHint(last, determine)] else [])
  }

  /** The hints of a (parenthesised or bracketed) argument list, in argument order. */
  function ArgumentHints(arguments: seq<Argument>, determine: Argument -> Option<Parameter>): seq<Hint>
  {
    HintsGivenPresentNames(arguments, PresentNames(arguments), determine)
  }

  /** The hints given some present names are those of the arguments that get one. */
  lemma {:induction false} HintsGivenPresentNamesAreOfSelected(arguments: seq<Argument>, presentNames: set<string>,
                                                              determine: Argument -> Option<Parameter>, h: Hint)
    ensures h in HintsGivenPresentNames(arguments, presentNames, determine)
        <==> exists i :: 0 <= i < |arguments| && GetsHint(presentNames, determine, arguments[i]) && h == ArgumentHint(arguments[i], determine)
  {
    if arguments != [] {
      var n := |arguments| - 1;
      var init := arguments[..n];
      HintsGivenPresentNamesAreOfSelected(init, presentNames, determine, h);
      if h in HintsGivenPresentNames(init, presentNames, determine) {
        var i :| 0 <= i < |init| && GetsHint(presentNames, determine, init[i]) && h == ArgumentHint(init[i], determine);
        assert arguments[i] == init[i];
      } else if h in HintsGivenPresentNames(arguments, presentNames, determine) {
        assert GetsHint(presentNames, determine, arguments[n]) && h == ArgumentHint(arguments[n], determine);
      }
      if exists i :: 0 <= i < |arguments| && GetsHint(presentNames, determine, arguments[i]) && h == ArgumentHint(arguments[i], determine) {
        var i :| 0 <= i < |arguments| && GetsHint(presentNames, determine, arguments[i]) && h == ArgumentHint(arguments[i], determine);
        if i < n {
          assert init[i] == arguments[i];
        }
      }
    }
  }

  /** A hint is produced exactly for each argument without `name:` whose parameter, if it has
      one, is not named by a `name:` argument of the same list; an argument whose parameter
      is unknown always gets one. */
  lemma ArgumentHintsSkipNamedParameters(arguments: seq<Argument>, determine: Argument -> Option<Parameter>, h: Hint)
    ensures h in ArgumentHints(arguments, determine)
        <==> exists i :: 0 <= i < |arguments| && arguments[i].nameColon.None?
                         && (determine(arguments[i]).Some? ==>
                               forall j :: 0 <= j < |arguments| ==> arguments[j].nameColon != Some(determine(arguments[i]).value.name))
                         && h == Hint(arguments[i].spanStart, arguments[i].id, determine(arguments[i]), GetKind(arguments[i].expression))
  {
    var names := PresentNames(arguments);
    HintsGivenPresentNamesAreOfSelected(arguments, names, determine, h);
    forall i | 0 <= i < |arguments| && determine(arguments[i]).Some?
      ensures determine(arguments[i]).value.name in names
              <==> exists j :: 0 <= j < |arguments| && arguments[j].nameColon == Some(determine(arguments[i]).value.name)
    {
      PresentNamesAreTheColonNames(arguments, determine(arguments[i]).value.name);
    }
  }

  // ---------------------------------------------------------------------------------------
  // The buffer and the methods that fill it

  /** The `ArrayBuilder` the hints are added to. */
  class HintBuffer {
    var hints: seq<Hint>

    constructor()
      ensures hints == []
    {
      hints := [];
    }

    method Add(h: Hint)
      modifies this
      ensures hints == old(hints) + [h]
    {
      hints := hints + [h];
    }
  }

  /** `AddArguments` for an attribute argument list: the `foreach` skips the named arguments
      and appends one hint for each other argument, after what the buffer already holds. */
  method AddAttributeArguments(buffer: HintBuffer, arguments: seq<AttributeArgument>, determine: AttributeArgument -> Option<Parameter>)
    modifies buffer
    ensures buffer.hints == old(buffer.hints) + AttributeHints(arguments, determine)
  {
    ghost var before := buffer.hints;
    for i := 0 to |arguments|
      invariant buffer.hints == before + AttributeHints(arguments[..i], determine)
    {
      var argument := arguments[i];
      assert arguments[..i + 1][..i] == arguments[..i];
      if argument.nameEquals.Some? || argument.nameColon.Some? {
        continue;
      }
      var parameter := determine(argument);
      buffer.Add(Hint(argument.spanStart, argument.id, parameter, GetKind(argument.expression)));
    }
    assert arguments[..|arguments|] == arguments;
  }

  /** The first `foreach` of `AddArguments`: the names given with `name:`. */
  method CollectPresentNames(arguments: seq<Argument>) returns (presentNames: set<string>)
    ensures presentNames == PresentNames(arguments)
  {
    presentNames := {};
    for i := 0 to |arguments|
      invariant presentNames == PresentNames(arguments[..i])
    {
      var argument := arguments[i];
      assert arguments[..i + 1][..i] == arguments[..i];
      if argument.nameColon.Some? {
        presentNames := presentNames + {argument.nameColon.value};
      }
    }
    assert arguments[..|arguments|] == arguments;
  }

  /** `AddArguments` for a parenthesised or bracketed argument list: after collecting the
      present names, the second `foreach` skips the arguments with `name:` and those whose
      parameter's name is present, and appends one hint for each other argument. */
  method AddArguments(buffer: HintBuffer, arguments: seq<Argument>, determine: Argument -> Option<Parameter>)
    modifies buffer
    ensures buffer.hints == old(buffer.hints) + ArgumentHints(arguments, determine)
  {
    var presentNames := CollectPresentNames(arguments);
    ghost var before := buffer.hints;
    for i := 0 to |arguments|
      invariant buffer.hints == before + HintsGivenPresentNames(arguments[..i], presentNames, determine)
    {
      var argument := arguments[i];
      assert arguments[..i + 1][..i] == arguments[..i];
      if argument.nameColon.Some? {
        continue;
      }
      var parameter := determine(argument);
      if parameter.Some? && parameter.value.name in presentNames {
        continue;
      }
      buffer.Add(Hint(argument.spanStart, argument.id, parameter, GetKind(argument.expression)));
    }
    assert arguments[..|arguments|] == arguments;
  }

  /** The hints `AddAllParameterNameHintLocations` adds for a node: those of its arguments for
      an argument list of either kind, none for any other node. */
  function NodeHints(node: ArgumentListNode, determine: Argument -> Option<Parameter>,
                     determineAttribute: AttributeArgument -> Option<Parameter>): seq<Hint>
  {
    match node
    case ArgumentList(arguments) => ArgumentHints(arguments, determine)
    case BracketedArgumentList(arguments) => ArgumentHints(arguments, determine)
    case AttributeArgumentList(arguments) => AttributeHints(arguments, determineAttribute)
    case OtherNode => []
  }

  /** `AddAllParameterNameHintLocations`: dispatches on the kind of node. */
  method AddAllParameterNameHintLocations(buffer: HintBuffer, node: ArgumentListNode, determine: Argument -> Option<Parameter>,
                                          determineAttribute: AttributeArgument -> Option<Parameter>)
    modifies buffer
    ensures buffer.hints == old(buffer.hints) + NodeHints(node, determine, determineAttribute)
  {
    match node
    case ArgumentList(arguments) => AddArguments(buffer, arguments, determine);
    case BracketedArgumentList(arguments) => AddArguments(buffer, arguments, determine);
    case AttributeArgumentList(arguments) => AddAttributeArguments(buffer, arguments, determineAttribute);
    case OtherNode =>
  }

  /** Every hint sits at the start of the argument it belongs to, and no other kind of node
      yields hints. */
  lemma NodeHintsSitAtTheirArguments(node: ArgumentListNode, determine: Argument -> Option<Parameter>,
                                     determineAttribute: AttributeArgument -> Option<Parameter>)
    ensures node.OtherNode? ==> NodeHints(node, determine, determineAttribute) == []
    ensures (node.ArgumentList? || node.BracketedArgumentList?) ==>
              forall h :: h in NodeHints(node, determine, determineAttribute) ==>
                exists a :: a in node.arguments && a.nameColon.None? && h.position == a.spanStart && h.argument == a.id
    ensures node.AttributeArgumentList? ==>
              forall h :: h in NodeHints(node, determine, determineAttribute) ==>
                exists a :: a in node.attributeArguments && IsPositionalAttributeArgument(a) && h.position == a.spanStart && h.argument == a.id
  {
    if node.ArgumentList? || node.BracketedArgumentList? {
      forall h | h in NodeHints(node, determine, determineAttribute)
        ensures exists a :: a in node.arguments && a.nameColon.None? && h.position == a.spanStart && h.argument == a.id
      {
        ArgumentHintsSkipNamedParameters(node.arguments, determine, h);
      }
    } else if node.AttributeArgumentList? {
      forall h | h in NodeHints(node, determine, determineAttribute)
        ensures exists a :: a in node.attributeArguments && IsPositionalAttributeArgument(a) && h.position == a.spanStart && h.argument == a.id
      {
        AttributeHintsAreThePositionalArguments(node.attributeArguments, determineAttribute, h);
      }
    }
  }

  // ---------------------------------------------------------------------------------------
  // IsIndexer and GetReplacementText

  /** `IsIndexer`: the arguments are an indexer's exactly when they are in brackets. */
  function IsIndexer(node: ArgumentListNode, parameter: Parameter): (r: bool)
    ensures r <==> node.BracketedArgumentList?
  {
    node.BracketedArgumentList?
  }

  /** `GetReplacementText`: the name followed by `": "`, escaped with `@` when it is a
      reserved keyword (`@class: `); `isReservedKeyword` stands for the keyword tables. */
  function GetReplacementText(parameterName: string, isReservedKeyword: string -> bool): (r: string)
    ensures |r| == |parameterName| + 2 + (if isReservedKeyword(parameterName) then 1 else 0)
    ensures r[|r| - 2..] == ": "
    ensures isReservedKeyword(parameterName) ==> r[0] == '@'
  {
    (if isReservedKeyword(parameterName) then "@" else "") + parameterName + ": "
  }

  /** Reads the parameter name back from a replacement text. */
  function ParameterNameOf(text: string, escaped: bool): string
  {
    var from := if escaped && |text| > 0 then 1 else 0;
    if |text| >= from + 2 then text[from..|text| - 2] else []
  }

  /** The replacement text holds exactly the parameter name between the optional `@` and the
      colon. */
  lemma ReplacementTextRoundTrip(parameterName: string, isReservedKeyword: string -> bool)
    ensures ParameterNameOf(GetReplacementText(parameterName, isReservedKeyword), isReservedKeyword(parameterName)) == parameterName
  {
    var r := GetReplacementText(parameterName, isReservedKeyword);
    var from := if isReservedKeyword(parameterName) then 1 else 0;
    assert r[from..|r| - 2] == parameterName;
  }
}
