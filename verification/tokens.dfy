/**
  The token resolver, `get_tag_token_replacement`: a fixed table pairs each
  token character with a tag field, and a linear scan of that table turns the
  character after a `%` into the text that replaces the marker.
 */
module Tokens {
  import opened Tags

  /** The token table, in the order the resolver scans it. */
  const Table: seq<(char, Tag)> := [
    ('a', Artist), ('b', Album), ('A', AlbumArtist), ('t', Title),
    ('T', Track), ('n', Name), ('g', Genre), ('d', Date),
    ('c', Composer), ('p', Performer), ('C', Comment), ('D', Disc)
  ]

  /** The recognized token characters. */
  const TokenChars: string := "abAtTngdcpCD"

  /** The character that selects each tag field, stated field by field. */
  function TokenOf(t: Tag): char {
    match t
    case Artist => 'a'
    case Album => 'b'
    case AlbumArtist => 'A'
    case Title => 't'
    case Track => 'T'
    case Name => 'n'
    case Genre => 'g'
    case Date => 'd'
    case Composer => 'c'
    case Performer => 'p'
    case Comment => 'C'
    case Disc => 'D'
  }

  /** The resolver's loop: the field of the first entry whose token is `c`,
      or None when no entry has that token. */
  function Lookup(table: seq<(char, Tag)>, c: char): (r: Option<Tag>)
    ensures r.Some? ==> (c, r.value) in table
    ensures r.None? <==> forall e :: e in table ==> e.0 != c
  {
    if |table| == 0 then None
    else if table[0].0 == c then Some(table[0].1)
    else
      assert forall e :: e in table ==> e == table[0] || e in table[1..];
      Lookup(table[1..], c)
  }

  /** The tag field a token character selects, if any. */
  function TokenTag(c: char): Option<Tag> {
    Lookup(Table, c)
  }

  /** A character that selects a tag field when it follows `%`. */
  predicate Recognized(c: char) {
    TokenTag(c).Some?
  }

  /** `get_tag_token_replacement`: the replacement text for token `c`, or None
      (the C code's NULL) when `c` is not in the table. */
  function Replacement(c: char, song: Song): (r: Option<CString>)
    ensures r.None? <==> !Recognized(c)
  {
    match TokenTag(c)
    case None => None
    case Some(t) => Some(SongTag(song, t))
  }

  /** No token is `%`, so `%x` with a token `x` is never read as `%%`. */
  lemma TokenIsNotPercent(t: Tag)
    ensures TokenOf(t) != '%'
  {
  }

  lemma TokenOfInjective(t: Tag, u: Tag)
    ensures TokenOf(t) == TokenOf(u) ==> t == u
  {
  }

  /** Every table entry pairs a field with that field's token. */
  lemma TableEntry(e: (char, Tag))
    requires e in Table
    ensures e.0 == TokenOf(e.1)
  {
  }

  /** Every field has an entry in the table. */
  lemma TableHasEntry(t: Tag)
    ensures (TokenOf(t), t) in Table
  {
    match t
    case Artist => assert Table[0] == (TokenOf(t), t);
    case Album => assert Table[1] == (TokenOf(t), t);
    case AlbumArtist => assert Table[2] == (TokenOf(t), t);
    case Title => assert Table[3] == (TokenOf(t), t);
    case Track => assert Table[4] == (TokenOf(t), t);
    case Name => assert Table[5] == (TokenOf(t), t);
    case Genre => assert Table[6] == (TokenOf(t), t);
    case Date => assert Table[7] == (TokenOf(t), t);
    case Composer => assert Table[8] == (TokenOf(t), t);
    case Performer => assert Table[9] == (TokenOf(t), t);
    case Comment => assert Table[10] == (TokenOf(t), t);
    case Disc => assert Table[11] == (TokenOf(t), t);
  }

  /** The table selects field `t` exactly for the character `TokenOf(t)`: every
      field has one token and every token one field. */
  lemma TableIsTokenOf(c: char, t: Tag)
    ensures TokenTag(c) == Some(t) <==> c == TokenOf(t)
  {
    if TokenTag(c) == Some(t) {
      TableEntry((c, t));
    }
    if c == TokenOf(t) {
      TableHasEntry(t);
      var u := TokenTag(c).value;
      TableEntry((c, u));
      TokenOfInjective(t, u);
    }
  }

  /** Exactly the twelve characters `a b A t T n g d c p C D` are tokens;
      `%` and every other character resolve to nothing. */
  lemma RecognizedChars(c: char)
    ensures Recognized(c) <==> c in TokenChars
    ensures !Recognized('%')
  {
    if Recognized(c) {
      assert (c, TokenTag(c).value) in Table;
    }
    if c in TokenChars {
      assert exists e :: e in Table && e.0 == c;
    }
    assert forall e :: e in Table ==> e.0 != '%';
  }

  /** A recognized token resolves to its field's value when the song has the tag,
      even an empty one, and to the fallback text when it does not. */
  lemma ResolveToken(t: Tag, song: Song)
    ensures Replacement(TokenOf(t), song).Some?
    ensures song(t).Some? ==> Replacement(TokenOf(t), song).value == song(t).value
    ensures song(t).None? ==> Replacement(TokenOf(t), song).value == Unknown
  {
    TableIsTokenOf(TokenOf(t), t);
  }

  /** What the two passes need of the resolver: for the character after a `%`,
      its replacement text, or None (NULL) when it is not a token. The passes
      are stated for any such function. */
  type Resolver = char -> Option<CString>

  /** The resolver, read off the table: a token resolves to its field's value
      (or the fallback text), every other character to NULL. */
  lemma ReplacementByTable(song: Song)
    ensures forall t :: Replacement(TokenOf(t), song) == Some(SongTag(song, t))
    ensures forall c :: c !in TokenChars ==> Replacement(c, song).None?
  {
    forall t
      ensures Replacement(TokenOf(t), song) == Some(SongTag(song, t))
    {
      ResolveToken(t, song);
    }
    forall c | c !in TokenChars
      ensures Replacement(c, song).None?
    {
      RecognizedChars(c);
    }
  }

  /** `get_tag_token_replacement(c, song)` as a function of `c`: the token of
      each field resolves to that field's text, and any character outside the
      twelve tokens to NULL. */
  function Resolve(song: Song): (res: Resolver)
    ensures forall t :: res(TokenOf(t)) == Some(SongTag(song, t))
    ensures forall c :: c !in TokenChars ==> res(c).None?
  {
    ReplacementByTable(song);
    c => Replacement(c, song)
  }
}
