/**
  Song tags as the template engine sees them.

  The media-player library hands out a song's tags as NUL-terminated C strings,
  or NULL when the song has no such tag. The engine only ever reads one tag value
  at a time, so a song is modelled as a read-only lookup from the twelve tag
  fields the engine knows about to an optional C string.
 */
module Tags {

  datatype Option<T> = None | Some(value: T)

  /** The contents of a C string: every character before the terminating NUL. */
  type CString = s: string | '\0' !in s

  /** The twelve tag fields the token table refers to. */
  datatype Tag =
    | Artist | Album | AlbumArtist | Title | Track | Name
    | Genre | Date | Composer | Performer | Comment | Disc

  /** A song: for each tag field, its first value, or None when the tag is absent. */
  type Song = Tag -> Option<CString>

  /** Replacement text for a tag the song does not carry (`strunknown`). */
  const Unknown: CString := "(unknown)"

  /** `get_mpd_song_tag`: the tag's value, or the fallback when the tag is absent.
      A present tag is returned as is, even when it is the empty string. */
  function SongTag(song: Song, t: Tag): CString {
    match song(t)
    case Some(v) => v
    case None => Unknown
  }
}
