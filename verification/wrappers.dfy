/**
 Swift's optional values (`T?`), used for the presenter's `currentQuestion`
 and for the question the factory hands to `didReceiveNextQuestion`.
 */
module Wrappers {

  datatype Option<+T> = None | Some(value: T)
}
