/** Option and Result values shared by the models: `None` stands for a null or
    `std::nullopt` result, `Failure` for a thrown exception. */
module Wrappers {

  datatype Option<T> = None | Some(value: T)

  datatype Result<T, E> = Success(value: T) | Failure(error: E)
}
