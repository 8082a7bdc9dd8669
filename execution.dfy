/** The control-flow signal every statement returns, the node objects the
    interpreter links to their lexical parent, and the two ways a Kotlin call
    can end (it returns a value or it throws). */
module Execution {

  /** The outcome of executing one statement. */
  datatype ExecutionResult = Success | Error | Break | Continue

  /** A statement or command node whose own execution is outside this model.
      The only state the interpreter touches is the back-reference to the
      enclosing node, assigned when control first reaches the node. */
  class Executable {
    var parent: object?

    constructor ()
      ensures parent == null
    {
      parent := null;
    }
  }

  /** The exceptions the modelled code lets escape. */
  datatype Thrown =
    | ExException(message: string)            // "E492: Not an editor command: ..."
    | InvalidCommandException(name: string)   // an alias whose command text is empty
    | IndexOutOfBounds                        // `alias[0]` on an empty alias name

  /** A call that either returns a value or throws. */
  datatype Outcome<+T> = Normal(value: T) | Threw(exception: Thrown)
}
