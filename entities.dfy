/** The records of the workbench: chapters, library cards, annotations, and the sections of the UI. */
module Entities {
  import opened Wrappers
  import Counting

  /** Opaque identifiers (`uid(...)` results); generating them is not modelled. */
  type Id = string

  /** A key/value pair of a card (`{k, v}`). */
  datatype Field = Field(k: string, v: string)

  /** A library card; its title is the pattern the card-link pass searches for. */
  datatype Card = Card(id: Id, category: string, title: string, fields: seq<Field>, body: string,
                       createdAt: string, updatedAt: string)

  /** A chapter of the draft; `delta` is its rich-text content, possibly missing. */
  datatype Chapter = Chapter(id: Id, title: string, delta: Option<Counting.Delta>,
                             createdAt: string, updatedAt: string)

  /** An annotation: a range over the chapter's plain text and its comment, stored as given. */
  datatype Comment = Comment(id: Id, index: int, length: int, text: string, createdAt: string)

  /** `state.section`. */
  datatype Section = Draft | Library | Settings
}
