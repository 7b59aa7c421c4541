/** The record that `POST /strings` builds and stores (index.js), shared by the listings and the routes. */
module Records {
  import opened Analyzer

  type Timestamp = string  // ISO-8601 text of `new Date().toISOString()`

  /** A stored record: `{ id, value, properties, created_at }`. */
  datatype StringRecord = StringRecord(id: Digest, value: string, properties: Properties, createdAt: Timestamp)
}
