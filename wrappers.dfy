/** Failure-carrying results used to model Python exceptions as values. */
module Wrappers {

  datatype Option<+T> = None | Some(value: T)

  /** The exceptions the modelled code raises. */
  datatype Error =
    | FileNotFound(path: string)       // FileNotFoundError raised by a background constructor
    | InvalidFormat(path: string)      // RuntimeError raised by set_background
    | ValueNotInList                   // ValueError raised by list.remove
    | UnknownName(name: string)        // NameError raised when a name is not defined
    | MissingAttribute(name: string)   // AttributeError raised when an attribute was never set
    | NoFrame                          // cv2.resize/blur called on a failed read (None)

  datatype Result<+T> = Ok(value: T) | Fail(error: Error)
}
