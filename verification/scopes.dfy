/** The breadth of a safe or ban entry. The store encodes `Global` as a NULL
    `chat_id` and `PerChat(c)` as `chat_id = c`, and matches a scope with
    `chat_id IS ?`, under which NULL matches only NULL. */
module Scopes {

  datatype Scope = Global | PerChat(chat: int)

  /** The value of an optional column or parameter. */
  datatype Option<+T> = None | Some(value: T)
}
