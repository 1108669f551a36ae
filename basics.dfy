/** Small result types shared by the model: an optional value and the outcome of a view action. */
module Basics {

  datatype Option<+T> = None | Some(value: T)

  /** What a view action answers. `ServerError` stands for an exception the view does not catch
      (Django then answers HTTP 500); the other three are the responses the views build. */
  datatype Outcome<+T> = Ok(value: T) | NotFound | BadRequest | ServerError
}
