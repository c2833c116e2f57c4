/**
 * What the side bar reads from the browser's storage for the chat list:
 * `localStorage.getItem('chats')` followed by `JSON.parse`. Both calls stay
 * outside the model; their outcome is an input.
 */
module Persisted {

  /**
   * One element of the parsed chat list as `for (let key in element)` sees
   * it: its enumerable property names in enumeration order (none for `null`,
   * a number or an empty object).
   */
  type Record = seq<string>

  /** The value `JSON.parse` returned: an array, or anything else. */
  datatype JsonValue = NonArray | ArrayValue(elements: seq<Record>)

  /**
   * The stored chat list: absent or empty (`getItem` gave a falsy value),
   * text that `JSON.parse` rejected, or the parsed value.
   */
  datatype StoredChats = Missing | Unparsable | Parsed(value: JsonValue)
}
