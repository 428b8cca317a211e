/** Shared vocabulary of the test-case generator: dotted paths, levels,
    rows (partial test cases), perspectives and the run's error kinds. */
module Types {

  /** A dotted factor path such as "Given.User.Age". */
  type Path = string

  /** One admissible value of a factor. */
  type Level = string

  /** A test case under construction: the paths that are set and their levels.
      A path that is absent from the map is `undefined` in the source. */
  type Row = map<Path, Level>

  /** The two fatal conditions the generator raises. */
  datatype Error =
    | DuplicateDefinition       // two leaves flatten to the same dotted path
    | StrengthExceedsVariables  // a perspective asks for more factors than it lists

  datatype Result<T> = Success(value: T) | Failure(error: Error)

  datatype Option<T> = None | Some(value: T)

  /** One perspective: which factors are covered jointly, at what strength,
      which constants override the defaults, and the caller's outcome rule.
      `outcome` is the effect (the source calls it `expect`) of the caller's callback on a row: the source
      hands the row object to the callback, which edits it in place. */
  datatype Perspective = Perspective(
    title: string,
    constants: Row,
    variables: seq<Path>,
    outcome: Row -> Row,
    strength: Option<nat>)

  /** The strength actually used: the given one, or every listed variable. */
  function ResolvedStrength(p: Perspective): nat {
    match p.strength
    case Some(s) => s
    case None => |p.variables|
  }

  /** The perspective asks for a strength larger than the number of its
      variables, which the generator rejects. */
  predicate TooStrong(p: Perspective) {
    p.strength.Some? && p.strength.value > |p.variables|
  }

  /** Some perspective of the list is too strong. */
  predicate AnyTooStrong(ps: seq<Perspective>) {
    exists i :: 0 <= i < |ps| && TooStrong(ps[i])
  }
}
