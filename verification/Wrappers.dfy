/** Option and the return codes shared by the models (include/rcutils/types/rcutils_ret.h). */
module Wrappers {

  datatype Option<+T> = None | Some(value: T)

  datatype Ret =
    | Ok
    | Error
    | InvalidArgument
    | BadAlloc
    | NotFound
    | NoMoreEntries
    | NotEnoughSpace
    | KeyNotFound
}
