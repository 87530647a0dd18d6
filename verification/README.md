# mpd-notification: the tag-template engine

mpd-notification shows a desktop notification for the song the music player
daemon (mpd) is playing. The header and body of the notification are
templates. In a template, `%x` stands for a tag of the current song, for
example `%a` for the artist and `%t` for the title. `%%` stands for a single
`%`. This project models the engine that substitutes those tokens and proves
what it does:

- `Tags`: the song as a read-only lookup from the twelve tag fields to an
  optional C string. It also holds `get_mpd_song_tag`, which falls back to
  `strunknown = "(unknown)"` when a tag is absent.
- `Tokens`: the token table and `get_tag_token_replacement`. This is a linear
  scan of twelve `(character, tag)` entries. It returns NULL, modelled as
  `None`, for any other character.
- `Expansion`: what a template is meant to say (`Expand`). It also has the
  predicates that split templates into those the C code handles as intended
  and those it does not. `strchr` is modelled as `FindPercent`.
- `LengthPass`: `get_replaced_format_string_length`, as a step function on the
  loop state `(format, size)`. `LengthFrom` is None exactly when the loop
  comes back to the state it started the iteration in, which means it never
  returns. `Length64` runs the same loop with `size_t` arithmetic and is
  proved to return the exact length modulo 2^64.
- `WritePass`: the loop and the final `strcpy` of `replace_tag_tokens_all`.
  `WriteFrom` gives every character stored from `new[0]` on, including any
  stored past `new[size]`.
- `Replace`: the whole `replace_tag_tokens_all` call. Its `Outcome` is one of
  three things: it hangs, `calloc` fails, or it returns a buffer of `size + 1`
  bytes holding the stored characters.
- `Corrected`: both passes as evidently intended, proved to agree with each
  other and with `Expand` on every template.
- `Examples`: the default templates, `%%`, and the two kinds of template on
  which the code goes wrong.

The passes take the token resolver as a parameter `res: char -> Option<CString>`.
The C code only ever asks `get_tag_token_replacement(format[1], song)`, so
every result holds for any resolver. The program's own resolver is
`Tokens.Resolve(song)`. Whether `calloc` succeeds is the boolean parameter
`allocates`.

The code goes wrong on two kinds of template; both are listed under
"## Findings", and the model follows the code in both:

- An unrecognized token, as in `"%z"`, hangs the length pass: the `continue`
  at mpd-notification.c:139 never moves past it.
- A `%` ending the template right after literal text, as in `"x%"`, makes the
  write pass copy that text a second time, past the end of the buffer
  (mpd-notification.c:168, 190).

Only an absent (NULL) tag gets `strunknown`, `"(unknown)"`
(mpd-notification.c:54-56, config.def.h:16-17). A present empty tag is
substituted as the empty string.

## Model

| member | source | states |
|---|---|---|
| Tags.SongTag | mpd-notification.c:48-59 | no contract of its own: the tag's value, or `"(unknown)"` when the tag is absent; stated by `Tokens.ResolveToken` |
| Tokens.Lookup | mpd-notification.c:103-109 | the scan returns a field only from an entry whose token is `c`, and returns NULL exactly when no entry has token `c` |
| Tokens.TableIsTokenOf | mpd-notification.c:88-101 | the table selects field `t` exactly for the character `TokenOf(t)`: each of the twelve fields has exactly one token and each token exactly one field |
| Tokens.RecognizedChars | mpd-notification.c:88-109 | exactly the characters `a b A t T n g d c p C D` are tokens; `%` and every other character resolve to NULL |
| Tokens.Replacement | mpd-notification.c:103-109 | the resolver returns NULL exactly for characters that are not tokens |
| Tokens.ResolveToken | mpd-notification.c:48-59 | a token resolves to its field's value when the song has the tag, even an empty one, and to `"(unknown)"` when the tag is absent |
| Tokens.Resolve | mpd-notification.c:80-110 | the resolver gives each field's token that field's text, the value or `"(unknown)"`, and gives NULL for every character outside `a b A t T n g d c p C D` |
| Tokens.ReplacementByTable | mpd-notification.c:88-109 | for every field, its token resolves to the field's text; every character outside the twelve tokens resolves to NULL |
| Expansion.FindPercent | mpd-notification.c:133 | `strchr(format, '%')` as an index: any index it returns lies at or after the cursor and inside the template; what it finds is stated by `Expansion.FindPercentFinds` |
| Expansion.FindPercentFinds | mpd-notification.c:133 | `strchr` returns the first `%` at or after the cursor, and NULL exactly when there is none |
| Expansion.FindPercentIsFirst | mpd-notification.c:163 | the first `%` after the cursor is what `strchr` returns |
| LengthPass.LengthStep | mpd-notification.c:133-143 | one iteration never moves `format` backwards and keeps `size` at least the length of the unscanned rest, so it never returns a negative size |
| LengthPass.LengthFrom | mpd-notification.c:133-146 | what the loop returns from a state, or None when it reaches a state that steps to itself; the result is non-negative from any state whose size covers the unscanned rest; what it returns is stated by `LengthPass.LengthFromMeaning` |
| LengthPass.Run | mpd-notification.c:133-144 | the loop run for at most `n` iterations: any state it reaches stays inside the template, and from a state whose size covers the unscanned rest the size stays non-negative |
| LengthPass.Length | mpd-notification.c:128-147 | no contract of its own: the loop started at `strlen(format)`; stated by `LengthPass.LengthMeaning` |
| LengthPass.StepContributions | mpd-notification.c:133-143 | a trailing `%` stops the scan with `size` unchanged; `%%` counts one; a token counts its replacement's length; each moves two past the `%`; an unrecognized token leaves `format` on its `%` |
| LengthPass.NoneMeansEndlessLoop | mpd-notification.c:133-144 | where the model says the pass does not return, no number of iterations leaves the loop; where it returns `k`, some number of iterations exits with `k` |
| LengthPass.LengthAtUnknown | mpd-notification.c:138-139 | the first unrecognized token reached makes the pass hang |
| LengthPass.LengthFromMeaning | mpd-notification.c:133-146 | from any loop state, the pass returns iff the rest holds no unrecognized token, and then it returns `size` adjusted by how much the rest grows or shrinks when substituted |
| LengthPass.LengthMeaning | mpd-notification.c:128-147 | the length pass returns iff the template has no unrecognized token, and then it returns the length of the intended text |
| LengthPass.SizeNeverNegative | mpd-notification.c:131-143 | on every iteration the running size is non-negative |
| LengthPass.Wrap | mpd-notification.c:131 | the `size_t` value of an integer: below 2^64, congruent to it modulo 2^64, and the integer itself when that is below 2^64 |
| LengthPass.LengthStep64 | mpd-notification.c:133-143 | one iteration with `size_t` arithmetic (`size--`, `size += strlen(replacement) - 2`) never moves `format` backwards |
| LengthPass.LengthFrom64 | mpd-notification.c:133-146 | no contract of its own: the `size_t` loop's return value from a state, or None when it reaches a state that steps to itself; stated by `LengthPass.LengthFromWraps` |
| LengthPass.Length64 | mpd-notification.c:128-147 | no contract of its own: the `size_t` loop started at `strlen(format)`; stated by `LengthPass.Length64Meaning` |
| LengthPass.StepWraps | mpd-notification.c:135-141 | the `size_t` iteration goes where the exact one goes, with `size` equal modulo 2^64, including when `strlen(replacement) - 2` wraps |
| LengthPass.LengthFromWraps | mpd-notification.c:133-146 | the `size_t` loop returns exactly when the exact loop does, with the exact value modulo 2^64 |
| LengthPass.Length64Meaning | mpd-notification.c:128-147 | with `size_t` arithmetic the pass returns iff there is no unrecognized token, and returns the intended text's length modulo 2^64, exactly that length when it is below 2^64 |
| WritePass.WriteContributions | mpd-notification.c:163-187 | at the first `%`: the text before it is copied; `%%` writes `%`; a token writes its replacement; an unrecognized token writes nothing; each moves two past the `%`; a trailing `%` leaves `format` at the segment start for the final copy |
| WritePass.WriteFrom | mpd-notification.c:163-190 | no contract of its own: the characters the loop and the final `strcpy` store with `format` at a given index; stated by `WritePass.WriteContributions` and `WritePass.WriteFromMeaning` |
| WritePass.Written | mpd-notification.c:161-190 | no contract of its own: the characters stored from `new[0]` on; stated by `WritePass.WrittenMeaning` |
| WritePass.WriteAtTrailing | mpd-notification.c:164-190 | a trailing `%` overshoots the intended text exactly when literal text precedes it in its segment |
| WritePass.WriteFromMeaning | mpd-notification.c:163-190 | without unrecognized tokens, the write pass stores exactly the intended text unless the rest ends in a `%` right after text; then it stores more than intended, with a non-`%` where the intended text ends in `%` |
| WritePass.WrittenMeaning | mpd-notification.c:163-190 | without unrecognized tokens, the characters stored equal the intended text iff the template does not end in a `%` right after text, and overshoot it otherwise |
| Replace.ReplaceTagTokensAll | mpd-notification.c:151-194 | no contract of its own: the length pass, `calloc`, the write pass; stated by `Replace.ReplaceMeaning` |
| Replace.ReplaceMeaning | mpd-notification.c:151-194 | the call hangs iff the template has an unrecognized token; it fails iff `calloc` fails; otherwise the buffer has room for exactly the intended text, it overruns iff a `%` ends the template right after text, and the caller gets the intended text iff there is no overrun |
| Replace.SupportedIffExact | mpd-notification.c:157-192 | the call returns exactly the intended text in a buffer of exactly its length iff the template has only `%%`, tokens and at most a trailing `%` that starts its segment |
| Replace.PlainTemplateCopied | mpd-notification.c:131-190 | a template without `%`, the empty one included, is measured at its own length and copied verbatim |
| Corrected.FixedLengthCountsWrite | mpd-notification.c:133-143 | the corrected length pass adjusts `size` by exactly how much the corrected write pass grows or shrinks the rest |
| Corrected.FixedWriteFromMeaning | mpd-notification.c:163-190 | the corrected write pass stores exactly the intended text from any cursor position |
| Corrected.FixedPassesAgree | mpd-notification.c:157-192 | the corrected passes agree on every template: the write pass stores the intended text and the length pass computes its length |
| Corrected.FixedReplaceTagTokensAll | mpd-notification.c:151-194 | the corrected call fails iff `calloc` fails, and otherwise returns the intended text, which fills the buffer exactly |
| Examples.ArtistAndTitle | config.def.h:14-17 | `"%a" + sep + "%t"` returns the artist, `sep` and the title; with the artist absent and an empty title it returns `"(unknown)" + sep` |
| Examples.DefaultBody | config.def.h:14 | the default body `"%a - %t"` returns artist, `" - "`, title |
| Examples.DefaultHead | config.def.h:11 | the default header `"Now Playing"` is returned as is |
| Examples.PercentMarkers | mpd-notification.c:134-172 | `"100%%"` returns `"100%"` in a 4-character buffer, and `"%%%"` returns `"%%"` |
| Examples.UnknownTokenHangs | mpd-notification.c:138-139 | `%c` with an unrecognized `c` hangs the call; the write pass would store nothing where `%c` is intended |
| Examples.PercentZHangs | mpd-notification.c:133-143 | the template `"%z"` hangs the call |
| Examples.TrailingPercentOverruns | mpd-notification.c:164-192 | for any literal text `p`, the template `p%` gets a buffer for the length of `p` plus one character, has `p`, `p` again and `%` stored into it, and returns `p` followed by `p`'s first character instead of `p%` |
| Examples.CorrectedOnBoth | mpd-notification.c:133-190 | the corrected call returns `%c` for an unrecognized token `c`, and `p%` for a trailing `%` after any literal text `p` |

## Left out

- The media-player connection, the idle wait, `get_mpd_state` and `mpd_run_current_song` are left out. They are library I/O. The song is a parameter.
- libnotify, GLib and markup escaping are left out. They are foreign calls made after substitution.
- Option parsing (`getopt`, `strtol`), `die` and `usage` are left out. They are command-line plumbing.
- Allocation is left out. Whether `calloc` succeeds is the boolean `allocates`. The unchecked NULL result in `main` belongs to the caller.
- `strncpy` and `strcpy` are modelled by the characters they store, not byte by byte. Stores past `new[size]` are reported as an overrun. What they would overwrite is not modelled.
- Replace.ReplaceTagTokensAll: the buffer size is the exact length `LengthPass.Length`, not the `size_t` value `LengthPass.Length64`. `LengthPass.Length64Meaning` shows the two agree when the intended text is shorter than 2^64 characters. For a longer text, as from a template repeating a token whose tag is enormous, the C size wraps and `calloc` gets a buffer that is too small. Beyond the wrapped size that `LengthPass.Length64Meaning` gives for it, that case is not modelled: it needs 2^64 bytes of substituted text, and the whole-call contracts are stated for the exact size.
- A Dafny `char` stands for one byte of a C string. `strlen`, `size` and the lengths in the model agree only under that reading. Multi-byte encodings such as UTF-8 are not modelled; the C code counts bytes.
- Only `strunknown` and the default header and body are used from config.def.h. The connection settings and urgency do not affect substitution.
- Tokens.Replacement: states only when the result is NULL. What a token resolves to is stated by `Tokens.ResolveToken`.

## Findings

| source | as written | input that shows it | evidently intended | confidence | as-written member | corrected member |
|---|---|---|---|---|---|---|
| mpd-notification.c:139 | `if (replacement == NULL) continue;` skips `format += 2`, so `strchr` finds the same `%` again and the length pass loops for ever | `"%z"` (any `%` followed by a character that is not a token) | move past the unrecognized token, keeping its two characters, with `size` unchanged | not executed | Examples.UnknownTokenHangs | Corrected.FixedReplaceTagTokensAll |
| mpd-notification.c:168 | `break` on a trailing `%` leaves `format` at the start of the segment, so the `strcpy` at line 190 copies the segment's text a second time, past `new[size]` | `"x%"` (a `%` ending the template right after text) | leave the loop with `format` on the `%`, so that only `%` remains to copy | not executed | Examples.TrailingPercentOverruns | Corrected.FixedReplaceTagTokensAll |
