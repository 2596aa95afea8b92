/** The buffered channel every subscriber of a tracker gets. */
module Channels {
  const CAPACITY := 16
}
