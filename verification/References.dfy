/** References to entities, in attribute values and in content: the errors they can meet, what one
    asks for, and chains of them. */
module References {

  /** XML_Error, as far as the two processors return it; an error of the attributes of a start tag
      comes with a number. */
  datatype Error =
    | NoError
    | NoElements
    | InvalidToken
    | UnclosedToken
    | PartialCharacter
    | TagMismatch
    | UndefinedEntity
    | EntityDeclaredInPe
    | RecursiveEntityRef
    | BinaryEntityRef
    | AttributeExternalEntityRef
    | ExternalEntityHandling
    | AsyncEntity
    | BadCharRef
    | MisplacedXmlPi
    | UnexpectedState
    | AttributeError(code: int)

  /** What a reference asks for. */
  datatype Reference<T> = Skip | Wrong(error: Error) | Replace(text: T)

  /** Whether an undeclared entity is an error in content. */
  predicate CheckedInContent(hasParamEntityRefs: bool, standalone: bool) {
    !hasParamEntityRefs || standalone
  }

  /** Some entity refers to itself along the chain. */
  ghost predicate Cyclic(p: seq<string>) {
    exists i, j :: 0 <= i < j < |p| && p[i] == p[j]
  }

  /** A chain longer than the number of entities repeats one. */
  lemma {:induction false} Pigeonhole(p: seq<string>, names: set<string>)
    requires (forall n | n in p :: n in names) && |p| > |names|
    ensures Cyclic(p)
    decreases |p|
  {
    var rest, last := p[..|p| - 1], p[|p| - 1];
    if last in rest {
      var i :| 0 <= i < |rest| && rest[i] == last;
      assert p[i] == p[|p| - 1];
    } else {
      Pigeonhole(rest, names - {last});
      var i, j :| 0 <= i < j < |rest| && rest[i] == rest[j];
      assert p[i] == p[j];
    }
  }
}
