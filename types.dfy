/** The parts of the playback SDK's objects that the program reads. */
module Types {
  datatype Image = Image(url: string)

  datatype Artist = Artist(name: string)

  datatype Album = Album(images: seq<Image>)

  datatype Track = Track(id: string, name: string, artists: seq<Artist>, album: Album)

  /** The payload of `player_state_changed`: the pause flag and the current
      track of the track window. */
  datatype PlayerState = PlayerState(paused: bool, currentTrack: Track)

  /** A player object made by the SDK: an opaque handle, and the token its
      `getOAuthToken` callback hands to the SDK whenever asked. */
  datatype Player = Player(handle: nat, oauthToken: string)
}
