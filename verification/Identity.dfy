/** A collection and a key in it: what the stores are addressed by. */
module Identities {
  import opened Utf8

  type Pair = (Text, Text)
}
