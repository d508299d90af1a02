/** A value, or none. */
module Options {
  datatype Option<+T> = None | Some(value: T)
}

/** Texts, and texts by key. */
module Texts {
  type TextMap = map<string, string>

  /** A key without a text reads as the empty one. */
  function TextAt(texts: TextMap, key: string): string {
    if key in texts then texts[key] else ""
  }

  predicate IsSpace(c: char) {
    c == ' ' || c == '\t' || c == '\n' || c == '\r' || c == '\U{000B}' || c == '\U{000C}' || c == '\U{00A0}' || c == '\U{FEFF}'
  }
}
