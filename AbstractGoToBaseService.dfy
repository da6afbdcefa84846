/** Go To Base: the bases of the symbol at a position are reported to a find-usages context,
    each as a definition from source or, failing that, from metadata, and "no base" is
    reported when none could be shown. Symbol lookup, `FindBaseHelpers.FindBases`,
    `FindNextConstructorInChainAsync`, `SymbolFinder.FindSourceDefinition`, a symbol's
    locations and its display name are parameters. */
module AbstractGoToBaseService {
  import opened Common

  /** A parameter as far as `FindBaseNoArgConstructor` looks at it. */
  datatype ParameterInfo = ParameterInfo(isOptional: bool, isParams: bool)

  /** A constructor can be called with no arguments when each parameter is optional or a
      `params` array. */
  predicate CallableWithoutArguments(parameters: seq<ParameterInfo>)
  {
    forall i :: 0 <= i < |parameters| ==> parameters[i].isOptional || parameters[i].isParams
  }

  function IsBaseNoArgConstructor<Sym>(containingType: Sym, isAccessibleWithin: (Sym, Sym) -> bool,
                                      parameters: Sym -> seq<ParameterInfo>): Sym -> bool
  {
    (c: Sym) => isAccessibleWithin(c, containingType) && CallableWithoutArguments(parameters(c))
  }

  /** `FindBaseNoArgConstructor`: the first instance constructor of the base type that is
      accessible from the constructor's type and callable without arguments; none when there
      is no base type or no such constructor. */
  function FindBaseNoArgConstructor<Sym>(constructorSymbol: Sym, containingType: Sym -> Sym, baseType: Sym -> Option<Sym>,
                                        instanceConstructors: Sym -> seq<Sym>, isAccessibleWithin: (Sym, Sym) -> bool,
                                        parameters: Sym -> seq<ParameterInfo>)
    : (r: Option<Sym>)
    ensures baseType(containingType(constructorSymbol)).None? ==> r.None?
    ensures baseType(containingType(constructorSymbol)).Some? ==>
              var candidates := instanceConstructors(baseType(containingType(constructorSymbol)).value);
              && (r.None? <==> forall i :: 0 <= i < |candidates| ==>
                                 !isAccessibleWithin(candidates[i], containingType(constructorSymbol))
                                 || !CallableWithoutArguments(parameters(candidates[i])))
              && (r.Some? ==> exists i :: && 0 <= i < |candidates| && candidates[i] == r.value
                                          && isAccessibleWithin(r.value, containingType(constructorSymbol))
                                          && CallableWithoutArguments(parameters(r.value))
                                          && forall j :: 0 <= j < i ==>
                                               !(isAccessibleWithin(candidates[j], containingType(constructorSymbol))
                                                 && CallableWithoutArguments(parameters(candidates[j]))))
  {
    var containing := containingType(constructorSymbol);
    match baseType(containing)
    case None => None
    case Some(b) => FirstWhere(instanceConstructors(b), IsBaseNoArgConstructor(containing, isAccessibleWithin, parameters))
  }

  datatype Location = Location(isInMetadata: bool)

  /** The definition item reported for a base: classified from its source definition, or
      non-classified from the base itself when it lives in metadata. */
  datatype DefinitionItem<Sym> = ClassifiedDefinitionItem(sourceDefinition: Sym) | NonClassifiedDefinitionItem(symbol: Sym)

  datatype NoResultsMessage = CannotNavigateToTheSymbolUnderTheCaret | TheSymbolHasNoBase

  /** What `FindBasesAsync` tells its context, in order. */
  datatype Report<Sym> =
    | NoResults(message: NoResultsMessage)
    | SearchTitle(symbolDisplayName: string)
    | DefinitionFound(item: DefinitionItem<Sym>)

  /** An `IFindUsagesContext`: the reports it has been given. */
  class FindUsagesContext<Sym> {
    var reports: seq<Report<Sym>>

    constructor ()
      ensures reports == []
    {
      reports := [];
    }

    method ReportNoResults(message: NoResultsMessage)
      modifies this
      ensures reports == old(reports) + [NoResults(message)]
    {
      reports := reports + [NoResults(message)];
    }

    method SetSearchTitle(symbolDisplayName: string)
      modifies this
      ensures reports == old(reports) + [SearchTitle(symbolDisplayName)]
    {
      reports := reports + [SearchTitle(symbolDisplayName)];
    }

    method OnDefinitionFound(item: DefinitionItem<Sym>)
      modifies this
      ensures reports == old(reports) + [DefinitionFound(item)]
    {
      reports := reports + [DefinitionFound(item)];
    }
  }

  predicate AnyInMetadata(locations: seq<Location>)
  {
    exists i :: 0 <= i < |locations| && locations[i].isInMetadata
  }

  /** The definition shown for a base, if any: its source definition first, else the base
      itself when one of its locations is in metadata. */
  function DefinitionOf<Sym>(base: Sym, sourceDefinition: Sym -> Option<Sym>, locations: Sym -> seq<Location>)
    : (r: Option<DefinitionItem<Sym>>)
    ensures r.None? <==> sourceDefinition(base).None? && !AnyInMetadata(locations(base))
    ensures sourceDefinition(base).Some? ==> r == Some(ClassifiedDefinitionItem(sourceDefinition(base).value))
    ensures r.Some? && r.value.NonClassifiedDefinitionItem? ==> r.value.symbol == base && sourceDefinition(base).None?
  {
    if sourceDefinition(base).Some? then Some(ClassifiedDefinitionItem(sourceDefinition(base).value))
    else if AnyInMetadata(locations(base)) then Some(NonClassifiedDefinitionItem(base))
    else None
  }

  /** The definitions found for a sequence of bases, in order. */
  function DefinitionReports<Sym>(bases: seq<Sym>, sourceDefinition: Sym -> Option<Sym>, locations: Sym -> seq<Location>)
    : (r: seq<Report<Sym>>)
    ensures |r| <= |bases|
    ensures forall i :: 0 <= i < |r| ==> r[i].DefinitionFound?
    ensures r == [] <==> forall i :: 0 <= i < |bases| ==> DefinitionOf(bases[i], sourceDefinition, locations).None?
  {
    if bases == [] then []
    else
      var init := bases[..|bases| - 1];
      var last := bases[|bases| - 1];
      var rest := DefinitionReports(init, sourceDefinition, locations);
      assert forall i :: 0 <= i < |init| ==> init[i] == bases[i];
      match DefinitionOf(last, sourceDefinition, locations)
      case Some(item) => rest + [DefinitionFound(item)]
      case None => rest
  }

  /** The bases searched: those `FindBases` returns, or, for a constructor with none, the next
      constructor in its chain if there is one. */
  function CandidateBases<Sym>(symbol: Sym, findBases: Sym -> seq<Sym>, isConstructor: Sym -> bool,
                               nextConstructorInChain: Sym -> Option<Sym>)
    : (r: seq<Sym>)
    ensures findBases(symbol) != [] ==> r == findBases(symbol)
    ensures findBases(symbol) == [] ==>
              r == (if isConstructor(symbol) && nextConstructorInChain(symbol).Some? then [nextConstructorInChain(symbol).value] else [])
  {
    var bases := findBases(symbol);
    if bases == [] && isConstructor(symbol) && nextConstructorInChain(symbol).Some? then [nextConstructorInChain(symbol).value]
    else bases
  }

  /** Everything `FindBasesAsync` reports for the symbol at the position, if any. */
  function BasesReports<Sym>(symbolAtPosition: Option<Sym>, findBases: Sym -> seq<Sym>, isConstructor: Sym -> bool,
                             nextConstructorInChain: Sym -> Option<Sym>, displayName: Sym -> string,
                             sourceDefinition: Sym -> Option<Sym>, locations: Sym -> seq<Location>)
    : seq<Report<Sym>>
  {
    match symbolAtPosition
    case None => [NoResults(CannotNavigateToTheSymbolUnderTheCaret)]
    case Some(symbol) =>
      var bases := CandidateBases(symbol, findBases, isConstructor, nextConstructorInChain);
      var found := DefinitionReports(bases, sourceDefinition, locations);
      [SearchTitle(displayName(symbol))] + found + (if found == [] then [NoResults(TheSymbolHasNoBase)] else [])
  }

  /** `FindBasesAsync`: reports to the context what `BasesReports` says. */
  method FindBases<Sym>(context: FindUsagesContext<Sym>, symbolAtPosition: Option<Sym>, findBases: Sym -> seq<Sym>,
                        isConstructor: Sym -> bool, nextConstructorInChain: Sym -> Option<Sym>, displayName: Sym -> string,
                        sourceDefinition: Sym -> Option<Sym>, locations: Sym -> seq<Location>)
    modifies context
    ensures context.reports == old(context.reports)
              + BasesReports(symbolAtPosition, findBases, isConstructor, nextConstructorInChain, displayName, sourceDefinition, locations)
  {
    if symbolAtPosition.None? {
      context.ReportNoResults(CannotNavigateToTheSymbolUnderTheCaret);
      return;
    }
    var symbol := symbolAtPosition.value;
    var bases := findBases(symbol);
    if |bases| == 0 && isConstructor(symbol) {
      var nextConstructor := nextConstructorInChain(symbol);
      if nextConstructor.Some? {
        bases := [nextConstructor.value];
      }
    }
    assert bases == CandidateBases(symbol, findBases, isConstructor, nextConstructorInChain);
    ReportBases(context, symbol, bases, displayName, sourceDefinition, locations);
  }

  /** The part of `FindBasesAsync` after the bases are known: the title, each definition,
      and "no base" when none was reported. */
  method ReportBases<Sym>(context: FindUsagesContext<Sym>, symbol: Sym, bases: seq<Sym>, displayName: Sym -> string,
                          sourceDefinition: Sym -> Option<Sym>, locations: Sym -> seq<Location>)
    modifies context
    ensures var found := DefinitionReports(bases, sourceDefinition, locations);
            context.reports == old(context.reports) + [SearchTitle(displayName(symbol))] + found
                               + (if found == [] then [NoResults(TheSymbolHasNoBase)] else [])
  {
    context.SetSearchTitle(displayName(symbol));
    var found := ReportDefinitions(context, bases, sourceDefinition, locations);
    if !found {
      context.ReportNoResults(TheSymbolHasNoBase);
    }
  }

  /** The `foreach` over the bases: reports each base's definition, if it has one, and says
      whether any was reported. */
  method ReportDefinitions<Sym>(context: FindUsagesContext<Sym>, bases: seq<Sym>,
                                sourceDefinition: Sym -> Option<Sym>, locations: Sym -> seq<Location>)
    returns (found: bool)
    modifies context
    ensures context.reports == old(context.reports) + DefinitionReports(bases, sourceDefinition, locations)
    ensures found <==> DefinitionReports(bases, sourceDefinition, locations) != []
  {
    found := false;
    ghost var before := context.reports;
    for i := 0 to |bases|
      invariant context.reports == before + DefinitionReports(bases[..i], sourceDefinition, locations)
      invariant found <==> DefinitionReports(bases[..i], sourceDefinition, locations) != []
    {
      DefinitionReportsSnoc(bases, i, sourceDefinition, locations);
      var baseSymbol := bases[i];
      var definition := sourceDefinition(baseSymbol);
      if definition.Some? {
        assert DefinitionOf(baseSymbol, sourceDefinition, locations) == Some(ClassifiedDefinitionItem(definition.value));
        context.OnDefinitionFound(ClassifiedDefinitionItem(definition.value));
        found := true;
      } else if AnyInMetadata(locations(baseSymbol)) {
        assert DefinitionOf(baseSymbol, sourceDefinition, locations) == Some(NonClassifiedDefinitionItem(baseSymbol));
        context.OnDefinitionFound(NonClassifiedDefinitionItem(baseSymbol));
        found := true;
      } else {
        assert DefinitionOf(baseSymbol, sourceDefinition, locations) == None;
      }
    }
    assert bases[..|bases|] == bases;
  }

  /** One more base adds its definition, if it has one. */
  lemma DefinitionReportsSnoc<Sym>(bases: seq<Sym>, i: nat, sourceDefinition: Sym -> Option<Sym>, locations: Sym -> seq<Location>)
    requires i < |bases|
    ensures DefinitionReports(bases[..i + 1], sourceDefinition, locations)
            == DefinitionReports(bases[..i], sourceDefinition, locations)
               + match DefinitionOf(bases[i], sourceDefinition, locations)
                 case Some(item) => [DefinitionFound(item)]
                 case None => []
  {
    assert bases[..i + 1][..i] == bases[..i];
  }

  /** With no symbol at the position only "cannot navigate" is reported; otherwise the title
      comes first, and "no base" is reported, last, exactly when no base has a source or
      metadata definition. */
  lemma NoBaseIsReportedIffNoBaseHasADefinition<Sym>(symbolAtPosition: Option<Sym>, findBases: Sym -> seq<Sym>,
                                                      isConstructor: Sym -> bool, nextConstructorInChain: Sym -> Option<Sym>,
                                                      displayName: Sym -> string, sourceDefinition: Sym -> Option<Sym>,
                                                      locations: Sym -> seq<Location>)
    ensures var r := BasesReports(symbolAtPosition, findBases, isConstructor, nextConstructorInChain, displayName, sourceDefinition, locations);
            && (symbolAtPosition.None? ==> r == [NoResults(CannotNavigateToTheSymbolUnderTheCaret)])
            && (symbolAtPosition.Some? ==>
                  var symbol := symbolAtPosition.value;
                  var bases := CandidateBases(symbol, findBases, isConstructor, nextConstructorInChain);
                  && |r| >= 2 && r[0] == SearchTitle(displayName(symbol))
                  && (r[|r| - 1] == NoResults(TheSymbolHasNoBase) <==>
                        forall i :: 0 <= i < |bases| ==> sourceDefinition(bases[i]).None? && !AnyInMetadata(locations(bases[i])))
                  && (forall i :: 1 <= i < |r| - 1 ==> r[i].DefinitionFound?))
  {
    if symbolAtPosition.Some? {
      var symbol := symbolAtPosition.value;
      var bases := CandidateBases(symbol, findBases, isConstructor, nextConstructorInChain);
      var found := DefinitionReports(bases, sourceDefinition, locations);
      forall i | 0 <= i < |bases| ensures DefinitionOf(bases[i], sourceDefinition, locations).None?
                                          <==> sourceDefinition(bases[i]).None? && !AnyInMetadata(locations(bases[i])) {
      }
    }
  }

  /** Every base with a definition shows up once among the reports, at its place in the order
      of the bases. */
  lemma {:induction false} EachDefinitionIsReported<Sym>(bases: seq<Sym>, sourceDefinition: Sym -> Option<Sym>,
                                                         locations: Sym -> seq<Location>, k: nat)
    requires k < |bases| && DefinitionOf(bases[k], sourceDefinition, locations).Some?
    ensures var before := DefinitionReports(bases[..k], sourceDefinition, locations);
            var r := DefinitionReports(bases, sourceDefinition, locations);
            |before| < |r| && r[|before|] == DefinitionFound(DefinitionOf(bases[k], sourceDefinition, locations).value)
  {
    var n := |bases|;
    var init := bases[..n - 1];
    DefinitionReportsSnoc(bases, n - 1, sourceDefinition, locations);
    assert bases[..n] == bases;
    if k == n - 1 {
      assert bases[..k] == init;
    } else {
      EachDefinitionIsReported(init, sourceDefinition, locations, k);
      assert init[..k] == bases[..k];
      assert init[k] == bases[k];
      var before := DefinitionReports(bases[..k], sourceDefinition, locations);
      var rest := DefinitionReports(init, sourceDefinition, locations);
      assert DefinitionReports(bases, sourceDefinition, locations)[|before|] == rest[|before|];
    }
  }
}
