/** The optional-value datatype used for the nullable fields of the model
    (`error: string | null`, the engine instance that may not exist, the note
    handed to the save callback only when a save happens). */
module Wrappers {

  datatype Option<+T> = None | Some(value: T)
}
