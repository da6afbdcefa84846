/** The pull-member-up refactoring offered for a span: from the extract-member analysis, the
    members valid to pull up and the destinations valid to receive them decide whether
    nothing, one inline action per destination plus the dialog, or only the dialog is
    registered. The member and destination validators, the symbol queries (`IsKind(Field)`,
    `AllInterfaces`, `GetBaseTypes`) and `MembersPuller.TryComputeCodeAction` are parameters. */
module PullMemberUpRefactoringProvider {
  import opened Common
  import opened AbstractExtractMemberAnalyzer

  /** The code actions the provider builds; `A` is what `TryComputeCodeAction` computes. */
  datatype PullMemberUpAction<S, A> =
    | PullUp(action: A)
    | PullMemberUpWithDialog(originalType: S, members: seq<MemberPair<S>>)
    | CodeActionWithNestedActions(titleMember: S, nestedActions: seq<PullMemberUpAction<S, A>>, isInlinable: bool)

  /** `RegisterRefactoring(action, span)`; `None` stands for the context's own span. */
  datatype Registration<S, A> = Registration(action: PullMemberUpAction<S, A>, applicableToSpan: Option<TextSpan>)

  /** The two `Contract.ThrowIfNull` checks. */
  datatype ContractFailure = OriginalTypeIsNull | OriginalTypeDeclarationNodeIsNull

  function IsValidMemberPair<S(==)>(isMemberValid: S -> bool): MemberPair<S> -> bool
  {
    (pair: MemberPair<S>) => isMemberValid(pair.symbol)
  }

  /** `validSelectedMembers`. */
  function ValidSelectedMembers<S(==)>(members: seq<MemberPair<S>>, isMemberValid: S -> bool): (r: seq<MemberPair<S>>)
    ensures (forall i :: 0 <= i < |members| ==> members[i].node != []) ==> forall i :: 0 <= i < |r| ==> r[i].node != []
  {
    var r := Filter(members, IsValidMemberPair(isMemberValid));
    assert forall i :: 0 <= i < |r| ==> r[i] in r;
    r
  }

  predicate AllFields<S(==)>(members: seq<MemberPair<S>>, isField: S -> bool)
  {
    forall i :: 0 <= i < |members| ==> isField(members[i].symbol)
  }

  /** `allDestinations`: only base types when every member is a field, else all interfaces
      followed by the base types. */
  function AllDestinations<S(==)>(originalType: S, members: seq<MemberPair<S>>, isField: S -> bool,
                              allInterfaces: S -> seq<S>, baseTypes: S -> seq<S>): seq<S>
  {
    if AllFields(members, isField) then baseTypes(originalType) else allInterfaces(originalType) + baseTypes(originalType)
  }

  /** `validDestinations`. */
  function ValidDestinations<S(==)>(originalType: S, members: seq<MemberPair<S>>, isField: S -> bool,
                                allInterfaces: S -> seq<S>, baseTypes: S -> seq<S>, isDestinationValid: S -> bool): seq<S>
  {
    Filter(AllDestinations(originalType, members, isField, allInterfaces, baseTypes), isDestinationValid)
  }

  /** The puller computes an action for the destination. */
  function HasPullUpAction<S, A>(members: seq<MemberPair<S>>, tryComputeCodeAction: (seq<MemberPair<S>>, S) -> Option<A>): S -> bool
  {
    (d: S) => tryComputeCodeAction(members, d).Some?
  }

  /** `Select(TryComputeCodeAction).WhereNotNull()`: one action per destination that has one,
      in destination order. */
  function PullUpActions<S(==), A(==)>(members: seq<MemberPair<S>>, destinations: seq<S>,
                               tryComputeCodeAction: (seq<MemberPair<S>>, S) -> Option<A>)
    : (r: seq<PullMemberUpAction<S, A>>)
    ensures |r| <= |destinations|
    ensures forall i :: 0 <= i < |r| ==> r[i].PullUp? && exists d :: d in destinations && tryComputeCodeAction(members, d) == Some(r[i].action)
    ensures forall d :: d in destinations && tryComputeCodeAction(members, d).Some? ==> PullUp(tryComputeCodeAction(members, d).value) in r
  {
    if destinations == [] then []
    else
      var rest := PullUpActions(members, destinations[1..], tryComputeCodeAction);
      assert forall d :: d in destinations[1..] ==> d in destinations;
      match tryComputeCodeAction(members, destinations[0])
      case Some(a) => [PullUp(a)] + rest
      case None => rest
  }

  /** The actions follow the destinations the puller builds one for: exactly one action per
      such destination, in destination order, and no other. */
  lemma {:induction false} PullUpActionsFollowDestinations<S, A>(members: seq<MemberPair<S>>, destinations: seq<S>,
                                                            tryComputeCodeAction: (seq<MemberPair<S>>, S) -> Option<A>)
    ensures var r := PullUpActions(members, destinations, tryComputeCodeAction);
            var chosen := Filter(destinations, HasPullUpAction(members, tryComputeCodeAction));
            && |r| == |chosen|
            && forall i :: 0 <= i < |r| ==> r[i].PullUp? && tryComputeCodeAction(members, chosen[i]) == Some(r[i].action)
  {
    if destinations != [] {
      PullUpActionsFollowDestinations(members, destinations[1..], tryComputeCodeAction);
      var p := HasPullUpAction(members, tryComputeCodeAction);
      var r := PullUpActions(members, destinations, tryComputeCodeAction);
      var rest := PullUpActions(members, destinations[1..], tryComputeCodeAction);
      var chosen := Filter(destinations, p);
      var chosenRest := Filter(destinations[1..], p);
      if p(destinations[0]) {
        assert chosen == [destinations[0]] + chosenRest;
        assert r == [PullUp(tryComputeCodeAction(members, destinations[0]).value)] + rest;
        forall i | 0 < i < |r|
          ensures r[i].PullUp? && tryComputeCodeAction(members, chosen[i]) == Some(r[i].action)
        {
          assert r[i] == rest[i - 1] && chosen[i] == chosenRest[i - 1];
        }
      } else {
        assert chosen == chosenRest;
        assert r == rest;
      }
    }
  }

  /** `ComputeRefactoringsAsync`: the refactorings registered for the analysis of a span, or
      the contract failure it throws. */
  function ComputeRefactorings<S(==), A(==)>(analyzerResult: ExtractMemberAnalysis<S>, isMemberValid: S -> bool, isField: S -> bool,
                                     allInterfaces: S -> seq<S>, baseTypes: S -> seq<S>, isDestinationValid: S -> bool,
                                     tryComputeCodeAction: (seq<MemberPair<S>>, S) -> Option<A>)
    : (r: Result<seq<Registration<S, A>>, ContractFailure>)
    requires HasMemberNodes(analyzerResult)
    ensures analyzerResult == InvalidSelection || analyzerResult.selectedMembers.None? || analyzerResult.selectedMembers.value == []
            ==> r == Ok([])
    ensures r.Err? <==> && analyzerResult.ExtractMemberAnalysis? && analyzerResult.selectedMembers.Some?
                        && analyzerResult.selectedMembers.value != []
                        && (analyzerResult.originalType.None? || analyzerResult.originalTypeDeclarationNode.None?)
    ensures r.Err? ==> (r.error == OriginalTypeIsNull <==> analyzerResult.originalType.None?)
    ensures r.Ok? ==> |r.value| <= 1
    ensures r.Ok? && r.value != [] ==>
              && analyzerResult.ExtractMemberAnalysis? && analyzerResult.selectedMembers.Some?
              && analyzerResult.originalType.Some?
              && var valid := ValidSelectedMembers(analyzerResult.selectedMembers.value, isMemberValid);
                 && valid != []
                 && ValidDestinations(analyzerResult.originalType.value, valid, isField, allInterfaces, baseTypes, isDestinationValid) != []
  {
    if analyzerResult == InvalidSelection || analyzerResult.selectedMembers.None? || analyzerResult.selectedMembers.value == [] then
      Ok([])
    else if analyzerResult.originalType.None? then
      Err(OriginalTypeIsNull)
    else if analyzerResult.originalTypeDeclarationNode.None? then
      Err(OriginalTypeDeclarationNodeIsNull)
    else
      var originalType := analyzerResult.originalType.value;
      var validSelectedMembers := ValidSelectedMembers(analyzerResult.selectedMembers.value, isMemberValid);
      if validSelectedMembers == [] then Ok([])
      else
        var validDestinations := ValidDestinations(originalType, validSelectedMembers, isField, allInterfaces, baseTypes, isDestinationValid);
        if validDestinations == [] then Ok([])
        else
          var dialog := PullMemberUpWithDialog(originalType, validSelectedMembers);
          if |validSelectedMembers| == 1 then
            var allActions := PullUpActions(validSelectedMembers, validDestinations, tryComputeCodeAction) + [dialog];
            var selectedMember := validSelectedMembers[0];
            var nestedCodeAction := CodeActionWithNestedActions(selectedMember.symbol, allActions, true);
            Ok([Registration(nestedCodeAction, Some(selectedMember.node[0].span))])
          else
            Ok([Registration(dialog, None)])
  }

  /** Fields go to base types only; any other member also goes to interfaces, which are
      offered first. A destination is offered exactly when it is one of those and valid. */
  lemma DestinationsDependOnFields<S>(originalType: S, members: seq<MemberPair<S>>, isField: S -> bool,
                                      allInterfaces: S -> seq<S>, baseTypes: S -> seq<S>, isDestinationValid: S -> bool, d: S)
    ensures var destinations := ValidDestinations(originalType, members, isField, allInterfaces, baseTypes, isDestinationValid);
            d in destinations <==>
              && isDestinationValid(d)
              && (d in baseTypes(originalType) || (!AllFields(members, isField) && d in allInterfaces(originalType)))
  {
    var all := AllDestinations(originalType, members, isField, allInterfaces, baseTypes);
    if isDestinationValid(d) && d in all {
      var i :| 0 <= i < |all| && all[i] == d;
    }
  }

  /** One valid member gets one inlinable action at the member's span: a pull-up action for
      every valid destination the puller can handle, then the dialog. */
  lemma SingleMemberGetsInlineActions<S, A>(analyzerResult: ExtractMemberAnalysis<S>, isMemberValid: S -> bool, isField: S -> bool,
                                            allInterfaces: S -> seq<S>, baseTypes: S -> seq<S>, isDestinationValid: S -> bool,
                                            tryComputeCodeAction: (seq<MemberPair<S>>, S) -> Option<A>)
    requires HasMemberNodes(analyzerResult)
    requires analyzerResult.ExtractMemberAnalysis? && analyzerResult.selectedMembers.Some?
    requires analyzerResult.originalType.Some? && analyzerResult.originalTypeDeclarationNode.Some?
    requires |ValidSelectedMembers(analyzerResult.selectedMembers.value, isMemberValid)| == 1
    ensures var originalType := analyzerResult.originalType.value;
            var valid := ValidSelectedMembers(analyzerResult.selectedMembers.value, isMemberValid);
            var destinations := ValidDestinations(originalType, valid, isField, allInterfaces, baseTypes, isDestinationValid);
            var r := ComputeRefactorings(analyzerResult, isMemberValid, isField, allInterfaces, baseTypes, isDestinationValid, tryComputeCodeAction);
            destinations != [] ==>
              && r.Ok? && |r.value| == 1
              && var registration := r.value[0];
                 && registration.applicableToSpan == Some(valid[0].node[0].span)
                 && registration.action.CodeActionWithNestedActions?
                 && registration.action.titleMember == valid[0].symbol
                 && registration.action.isInlinable
                 && var actions := registration.action.nestedActions;
                    && actions == PullUpActions(valid, destinations, tryComputeCodeAction) + [PullMemberUpWithDialog(originalType, valid)]
                    && actions != [] && actions[|actions| - 1] == PullMemberUpWithDialog(originalType, valid)
                    && (forall i :: 0 <= i < |actions| - 1 ==> actions[i].PullUp?)
                    && (forall d :: d in destinations && tryComputeCodeAction(valid, d).Some? ==>
                                      PullUp(tryComputeCodeAction(valid, d).value) in actions)
  {
  }

  /** Several valid members get only the dialog, at the span of the request. */
  lemma SeveralMembersGetTheDialog<S, A>(analyzerResult: ExtractMemberAnalysis<S>, isMemberValid: S -> bool, isField: S -> bool,
                                         allInterfaces: S -> seq<S>, baseTypes: S -> seq<S>, isDestinationValid: S -> bool,
                                         tryComputeCodeAction: (seq<MemberPair<S>>, S) -> Option<A>)
    requires HasMemberNodes(analyzerResult)
    requires analyzerResult.ExtractMemberAnalysis? && analyzerResult.selectedMembers.Some?
    requires analyzerResult.originalType.Some? && analyzerResult.originalTypeDeclarationNode.Some?
    requires |ValidSelectedMembers(analyzerResult.selectedMembers.value, isMemberValid)| > 1
    ensures var originalType := analyzerResult.originalType.value;
            var valid := ValidSelectedMembers(analyzerResult.selectedMembers.value, isMemberValid);
            var destinations := ValidDestinations(originalType, valid, isField, allInterfaces, baseTypes, isDestinationValid);
            var r := ComputeRefactorings(analyzerResult, isMemberValid, isField, allInterfaces, baseTypes, isDestinationValid, tryComputeCodeAction);
            r == (if destinations == [] then Ok([]) else Ok([Registration(PullMemberUpWithDialog(originalType, valid), None)]))
  {
  }
}
