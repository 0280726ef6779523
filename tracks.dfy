/** The track record shared by search and sort; absent fields are None. */
module Tracks {
  import opened Wrappers

  datatype Track = Track(
    trackId: int,
    name: Option<string>,
    artist: Option<string>,
    comments: Option<string>,
    bpm: Option<int>,
    totalTime: Option<int>,
    simplifiedName: Option<string>,
    simplifiedArtist: Option<string>)

  /** `field ?? ''`. */
  function TextOr(field: Option<string>): string {
    if field.Some? then field.value else ""
  }

  /** `field ?? 0`. */
  function NumberOr(field: Option<int>): int {
    if field.Some? then field.value else 0
  }
}
