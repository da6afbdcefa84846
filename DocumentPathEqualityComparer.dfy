/** The rename conflict engine's document comparer: two documents are the same when their
    file paths are. The comparer's hash is the document object's own hash, which does not
    agree with that equality; `GetHashCodeByPath` is the hash the comparer evidently needs. */
module DocumentPathEqualityComparer {
  import opened Common

  /** A document object: its identity (for reference equality and the object hash) and its
      file path, which may be absent. */
  datatype Document = Document(objectId: nat, filePath: Option<string>)

  /** `Equals(x, y)`: a null argument is equal only to null; otherwise the file paths are
      compared, two absent paths counting as equal. */
  function Equals(x: Option<Document>, y: Option<Document>): (r: bool)
    ensures x.None? || y.None? ==> (r <==> x.None? && y.None?)
    ensures x.Some? && y.Some? ==> (r <==> x.value.filePath == y.value.filePath)
  {
    if x.None? || y.None? then x.None? && y.None? else x.value.filePath == y.value.filePath
  }

  lemma EqualsIsAnEquivalence(x: Option<Document>, y: Option<Document>, z: Option<Document>)
    ensures Equals(x, x)
    ensures Equals(x, y) == Equals(y, x)
    ensures Equals(x, y) && Equals(y, z) ==> Equals(x, z)
  {
  }

  /** Distinct document objects with the same path are equal. */
  lemma DistinctObjectsWithSamePathAreEqual(a: Document, b: Document)
    requires a.objectId != b.objectId && a.filePath == b.filePath
    ensures Equals(Some(a), Some(b))
  {
  }

  /** `GetHashCode` as written: the object's own hash, given here as a function of the
      object's identity. */
  function GetHashCodeAsWritten(obj: Document, objectHash: nat -> int): int
  {
    objectHash(obj.objectId)
  }

  /** Two documents for one file are equal under the comparer yet hash differently when
      the object hash tells the objects apart, as an identity hash does. */
  lemma AsWrittenHashDisagreesWithEquals()
    ensures var a := Document(1, Some("C.cs"));
            var b := Document(2, Some("C.cs"));
            var identityHash := (id: nat) => id;
            Equals(Some(a), Some(b))
            && GetHashCodeAsWritten(a, identityHash) != GetHashCodeAsWritten(b, identityHash)
  {
  }

  /** The hash consistent with `Equals`: a hash of the file path. */
  function GetHashCodeByPath(obj: Document, pathHash: Option<string> -> int): int
  {
    pathHash(obj.filePath)
  }

  /** Documents the comparer calls equal always get equal hashes from the path hash. */
  lemma HashByPathAgreesWithEquals(a: Document, b: Document, pathHash: Option<string> -> int)
    requires Equals(Some(a), Some(b))
    ensures GetHashCodeByPath(a, pathHash) == GetHashCodeByPath(b, pathHash)
  {
  }
}
