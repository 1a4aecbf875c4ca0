/** Optional values: Kotlin's nullable types (`String?`, `Int?`, `UIElementBounds?`). */
module Wrappers {

  datatype Option<+T> = None | Some(value: T)
}
