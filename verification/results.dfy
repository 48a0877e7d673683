/**
 * Results: the outcome of an operation whose source form can abort on a
 * failed `assert`. `Err` stands for the abort and names the assertion that
 * fired; a caller never observes the state after an `Err`.
 */
module Results {

  /** The assertions of the source that can stop an operation. */
  datatype Error =
    | EntityLimitReached               // "Max Entity count exceeded"
    | EntityOutOfRange                 // "Entity out of range."
    | ComponentAlreadyPresent          // "Component to add already existed on Entity"
    | ComponentMissing                 // "Component to remove/get does not exist on Entity"
    | ComponentTypeAlreadyRegistered   // "Component type already exist"
    | ComponentTypeNotRegistered       // "Component not registered before use."
    | SystemAlreadyRegistered          // "System to register already exists"
    | SystemNotRegistered              // "System used before registered."

  datatype Result<+T> = Ok(value: T) | Err(error: Error) {

    predicate IsFailure() {
      Err?
    }

    function PropagateFailure<U>(): Result<U>
      requires Err?
    {
      Err(error)
    }

    function Extract(): T
      requires Ok?
    {
      value
    }
  }
}
