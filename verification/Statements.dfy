/** What a consumer can learn about a statement it has sent to the database. */
module Statements {

  /** It commits; it fails and changes nothing; it commits but the consumer sees an error. */
  datatype Outcome = Commits | Fails | CommitsUnseen
}
