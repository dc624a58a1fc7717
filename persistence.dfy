/** The failures the document store reports when a record is created. */
module Persistence {

  /**
   * `Model.create` rejects a document either because schema validation failed
   * on some paths (a required field missing or empty) or because it would
   * break a unique index.
   */
  datatype DbError = ValidationError(paths: set<string>) | DuplicateKey(index: string)
}
