/**
  `replace_tag_tokens_all`, as written: run the length pass, allocate
  `size + 1` zeroed bytes, run the write pass into them, store a NUL at
  `new[size]` and return the buffer.
 */
module Replace {
  import opened Tags
  import opened Tokens
  import opened Expansion
  import opened LengthPass
  import opened WritePass

  /** What a call comes to. */
  datatype Outcome =
    | Hangs                                 // the length pass never returns
    | AllocFailed                           // `calloc` returned NULL; the call returns NULL
    | Returned(size: nat, written: string)  // a buffer of `size + 1` bytes, and what the write pass stored
  {
    /** The write pass stored characters at or past `new[size]`, outside what
        was computed for the text (`strcpy` also stores its NUL one further). */
    predicate Overruns()
      requires Returned?
    {
      |written| > size
    }

    /** The C string the caller gets: the stored characters, cut at `new[size]`,
        where the final NUL goes. */
    function Text(): string
      requires Returned?
    {
      if Overruns() then written[..size] else written
    }
  }

  /** `t` has the length of `e` and agrees with it everywhere but in the last character. */
  predicate DiffersInLastOnly(t: string, e: string) {
    |t| == |e| > 0 && t[..|e| - 1] == e[..|e| - 1] && t[|e| - 1] != e[|e| - 1]
  }

  /** `replace_tag_tokens_all(f, song)` with `res` resolving tokens for `song`;
      `allocates` is whether `calloc` succeeds. */
  function ReplaceTagTokensAll(f: CString, res: Resolver, allocates: bool): Outcome {
    match Length(f, res)
    case None => Hangs
    case Some(size) => if !allocates then AllocFailed else Returned(size, Written(f, res))
  }

  /** The whole call, against the intended text: it hangs exactly on templates
      with an unrecognized token; otherwise the buffer has room for exactly the
      intended text, and the write pass overruns it exactly when the template
      ends in a `%` right after literal text. Without an overrun the caller gets
      the intended text; with one, it gets text of the intended length whose
      last character is not the intended `%`. */
  lemma ReplaceMeaning(f: CString, res: Resolver, allocates: bool)
    ensures ReplaceTagTokensAll(f, res, allocates).Hangs? <==> HasUnknownToken(f, res)
    ensures ReplaceTagTokensAll(f, res, allocates).AllocFailed? <==> !HasUnknownToken(f, res) && !allocates
    ensures var o := ReplaceTagTokensAll(f, res, allocates);
      o.Returned? ==>
        o.size == |Expand(f, res)| &&
        (o.Overruns() <==> DanglingAfterText(f)) &&
        (!o.Overruns() ==> o.Text() == Expand(f, res)) &&
        (o.Overruns() ==> DiffersInLastOnly(o.Text(), Expand(f, res)))
  {
    var e, w := Expand(f, res), Written(f, res);
    assert (Length(f, res).None? <==> HasUnknownToken(f, res))
        && (Length(f, res).Some? ==> Length(f, res).value == |e|) by {
      LengthMeaning(f, res);
    }
    if !HasUnknownToken(f, res) && allocates {
      assert ReplaceTagTokensAll(f, res, allocates) == Returned(|e|, w);
      assert (w == e <==> !DanglingAfterText(f))
          && (DanglingAfterText(f) ==> Overshoots(w, e)) by {
        WrittenMeaning(f, res);
      }
      if DanglingAfterText(f) {
        assert w[..|e|][..|e| - 1] == w[..|e| - 1];
      }
    }
  }

  /** The call returns the intended text, in a buffer of exactly its length,
      exactly for the supported templates. */
  lemma SupportedIffExact(f: CString, res: Resolver)
    ensures ReplaceTagTokensAll(f, res, true) == Returned(|Expand(f, res)|, Expand(f, res))
      <==> Supported(f, res)
  {
    ReplaceMeaning(f, res, true);
    LengthMeaning(f, res);
    if !HasUnknownToken(f, res) {
      WrittenMeaning(f, res);
    }
  }

  /** A template without `%`, the empty one included, is measured at its own
      length and copied verbatim. */
  lemma PlainTemplateCopied(f: CString, res: Resolver)
    requires '%' !in f
    ensures ReplaceTagTokensAll(f, res, true) == Returned(|f|, f)
  {
    PlainMeansItself(f, res);
    SupportedIffExact(f, res);
  }
}
