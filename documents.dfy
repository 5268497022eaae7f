/** The documents table, as far as the other components refer to it. */
module Documents {
  /** A document's id (the uuid of its row in the documents table). */
  type DocId = string
}
