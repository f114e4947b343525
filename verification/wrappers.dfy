/** The optional value used for the token's holder: a token is either held by
    a player or not yet assigned to anyone. */
module Wrappers {

  datatype Option<+T> = None | Some(value: T)
}
