/** The key of the add-imports copy cache: the copied document's id together with a fresh
    Guid, so that two copies from the same document get different keys. Guid generation is
    a parameter; hashing is modelled with the hash functions of the parts as parameters. */
module AddImportsCacheIdentifiers {

  datatype Document = Document(id: nat)

  datatype AddImportsCacheIdentifier = AddImportsCacheIdentifier(documentId: nat, guid: nat)

  /** A boxed value as `Equals(object?)` receives it. */
  datatype Object = Identifier(identifier: AddImportsCacheIdentifier) | OtherObject(typeName: string) | Null

  /** The constructor keeps the document's id and the freshly generated Guid. */
  function NewIdentifier(document: Document, newGuid: nat): (r: AddImportsCacheIdentifier)
    ensures r.documentId == document.id
    ensures r.guid == newGuid
  {
    AddImportsCacheIdentifier(document.id, newGuid)
  }

  /** `Equals(object?)`: the other object is an identifier with the same document id and
      the same Guid. */
  function Equals(self: AddImportsCacheIdentifier, obj: Object): (r: bool)
    ensures r <==> obj == Identifier(self)
    ensures !obj.Identifier? ==> !r
  {
    obj.Identifier? && self.documentId == obj.identifier.documentId && self.guid == obj.identifier.guid
  }

  /** `GetHashCode`: the two field hashes combined. */
  function GetHashCode(self: AddImportsCacheIdentifier, combine: (int, int) -> int,
                       documentIdHash: nat -> int, guidHash: nat -> int): int
  {
    combine(documentIdHash(self.documentId), guidHash(self.guid))
  }

  lemma EqualsIsReflexiveAndSymmetric(a: AddImportsCacheIdentifier, b: AddImportsCacheIdentifier)
    ensures Equals(a, Identifier(a))
    ensures Equals(a, Identifier(b)) <==> Equals(b, Identifier(a))
  {
  }

  lemma EqualsIsTransitive(a: AddImportsCacheIdentifier, b: AddImportsCacheIdentifier, c: AddImportsCacheIdentifier)
    requires Equals(a, Identifier(b)) && Equals(b, Identifier(c))
    ensures Equals(a, Identifier(c))
  {
  }

  /** Equal identifiers hash alike, whatever the component hash functions are. */
  lemma EqualIdentifiersHaveEqualHashes(a: AddImportsCacheIdentifier, b: AddImportsCacheIdentifier,
                                        combine: (int, int) -> int, documentIdHash: nat -> int, guidHash: nat -> int)
    requires Equals(a, Identifier(b))
    ensures GetHashCode(a, combine, documentIdHash, guidHash) == GetHashCode(b, combine, documentIdHash, guidHash)
  {
  }

  /** Two identifiers made for the same document differ when their Guids do. */
  lemma FreshGuidsGiveDistinctIdentifiers(document: Document, g1: nat, g2: nat)
    requires g1 != g2
    ensures !Equals(NewIdentifier(document, g1), Identifier(NewIdentifier(document, g2)))
  {
  }
}
