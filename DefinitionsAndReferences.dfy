/** Find-usages results: the definitions to show and the source references found, with the
    rule, checked when the value is built, that every reference points at one of the given
    definitions. */
module DefinitionsAndReferences {
  import opened Common

  datatype DefinitionItem = DefinitionItem(id: nat)

  datatype SourceReferenceItem = SourceReferenceItem(definition: DefinitionItem, location: TextSpan)

  datatype DefinitionsAndReferences = DefinitionsAndReferences(
    definitions: seq<DefinitionItem>,
    references: seq<SourceReferenceItem>)

  /** The `ArgumentException` naming the offending position `references[index]`. */
  datatype ArgumentException = ArgumentException(index: nat)

  /** Every reference's definition is among the definitions; definitions need no reference. */
  predicate Valid(d: DefinitionsAndReferences)
  {
    forall i :: 0 <= i < |d.references| ==> d.references[i].definition in d.definitions
  }

  /** The constructor: checks the references in order and fails at the first one whose
      definition is missing; otherwise keeps both arrays as given. */
  method Create(definitions: seq<DefinitionItem>, references: seq<SourceReferenceItem>)
    returns (r: Result<DefinitionsAndReferences, ArgumentException>)
    ensures r.Ok? <==> forall i :: 0 <= i < |references| ==> references[i].definition in definitions
    ensures r.Ok? ==> r.value.definitions == definitions && r.value.references == references && Valid(r.value)
    ensures r.Err? ==> r.error.index < |references|
                       && references[r.error.index].definition !in definitions
                       && forall j :: 0 <= j < r.error.index ==> references[j].definition in definitions
  {
    var definitionSet := set d | d in definitions;
    var n := |references|;
    for i := 0 to n
      invariant forall j :: 0 <= j < i ==> references[j].definition in definitions
    {
      var reference := references[i];
      if reference.definition !in definitionSet {
        return Err(ArgumentException(i));
      }
    }
    return Ok(DefinitionsAndReferences(definitions, references));
  }

  /** `Empty`: no definitions, no references. */
  const Empty: DefinitionsAndReferences := DefinitionsAndReferences([], [])

  lemma EmptyIsValid()
    ensures Empty.definitions == [] && Empty.references == [] && Valid(Empty)
  {
  }

  /** Building `Empty` through the constructor succeeds and gives `Empty`. */
  method CreateEmpty() returns (r: Result<DefinitionsAndReferences, ArgumentException>)
    ensures r == Ok(Empty)
  {
    r := Create([], []);
  }
}
