/**
  Concrete templates: the default notification body, the fallback for an
  absent tag, `%%`, and the two kinds of template on which the C passes go wrong.
 */
module Examples {
  import opened Tags
  import opened Tokens
  import opened Expansion
  import opened LengthPass
  import opened WritePass
  import opened Replace
  import opened Corrected

  /** A token marker `%x` in front of `rest`: replaced by the field's text. */
  lemma TokenInFront(t: Tag, rest: string, song: Song)
    ensures Expand(['%', TokenOf(t)] + rest, Resolve(song)) == SongTag(song, t) + Expand(rest, Resolve(song))
    ensures HasUnknownToken(['%', TokenOf(t)] + rest, Resolve(song)) == HasUnknownToken(rest, Resolve(song))
    ensures DanglingAfterText(['%', TokenOf(t)] + rest) == DanglingAfterText(rest)
  {
    var s, res := ['%', TokenOf(t)] + rest, Resolve(song);
    assert s[0] == '%' && s[1] == TokenOf(t) && s[2..] == rest;
    TokenIsNotPercent(t);
    assert res(TokenOf(t)) == Some(SongTag(song, t));
  }

  /** Literal text `p` in front of `rest` is copied. */
  lemma TextInFront(p: string, rest: string, res: Resolver)
    requires '%' !in p
    ensures Expand(p + rest, res) == p + Expand(rest, res)
    ensures HasUnknownToken(p + rest, res) == HasUnknownToken(rest, res)
    ensures |rest| != 1 ==> DanglingAfterText(p + rest) == DanglingAfterText(rest)
  {
    var s := p + rest;
    assert s[..|p|] == p && s[|p|..] == rest;
    LiteralPrefix(s, res, |p|);
  }

  /** The tail `sep + "%t"` of the template below. */
  lemma SeparatorAndTitle(sep: string, song: Song)
    requires '%' !in sep
    ensures Expand(sep + "%t", Resolve(song)) == sep + SongTag(song, Title)
    ensures !HasUnknownToken(sep + "%t", Resolve(song)) && !DanglingAfterText(sep + "%t")
  {
    assert Expand("%t", Resolve(song)) == SongTag(song, Title)
        && !HasUnknownToken("%t", Resolve(song)) && !DanglingAfterText("%t") by {
      TokenInFront(Title, "", song);
      assert "%t" == ['%', TokenOf(Title)] + "";
    }
    TextInFront(sep, "%t", Resolve(song));
  }

  /** What the template `"%a" + sep + "%t"` means, and that it is supported. */
  lemma ArtistAndTitleText(sep: string, song: Song)
    requires '%' !in sep
    ensures Expand("%a" + sep + "%t", Resolve(song)) == SongTag(song, Artist) + sep + SongTag(song, Title)
    ensures Supported("%a" + sep + "%t", Resolve(song))
  {
    var a, rest := SongTag(song, Artist), sep + "%t";
    assert "%a" + sep + "%t" == ['%', TokenOf(Artist)] + rest;
    assert Expand(rest, Resolve(song)) == sep + SongTag(song, Title)
        && !HasUnknownToken(rest, Resolve(song)) && !DanglingAfterText(rest) by {
      SeparatorAndTitle(sep, song);
    }
    TokenInFront(Artist, rest, song);
    assert a + (sep + SongTag(song, Title)) == a + sep + SongTag(song, Title);
  }

  /** Two tokens around a separator without `%`, as in the default body
      `"%a - %t"`: each token becomes its field's value, an absent field the
      fallback text and an empty one nothing, and the call returns exactly that. */
  lemma ArtistAndTitle(f: CString, sep: string, song: Song)
    requires '%' !in sep && f == "%a" + sep + "%t"
    ensures var e := SongTag(song, Artist) + sep + SongTag(song, Title);
      ReplaceTagTokensAll(f, Resolve(song), true) == Returned(|e|, e)
    ensures song(Artist) == None && song(Title).Some? && song(Title).value == "" ==>
      ReplaceTagTokensAll(f, Resolve(song), true) == Returned(|sep| + 9, Unknown + sep)
  {
    var e := SongTag(song, Artist) + sep + SongTag(song, Title);
    assert Expand(f, Resolve(song)) == e && Supported(f, Resolve(song)) by {
      ArtistAndTitleText(sep, song);
    }
    assert ReplaceTagTokensAll(f, Resolve(song), true) == Returned(|e|, e) by {
      SupportedIffExact(f, Resolve(song));
    }
    if song(Artist) == None && song(Title).Some? && song(Title).value == "" {
      assert e == Unknown + sep;
    }
  }

  /** The default notification body `"%a - %t"`. */
  lemma DefaultBody(song: Song)
    ensures var e := SongTag(song, Artist) + " - " + SongTag(song, Title);
      ReplaceTagTokensAll("%a - %t", Resolve(song), true) == Returned(|e|, e)
  {
    ArtistAndTitle("%a - %t", " - ", song);
  }

  /** The default notification header `"Now Playing"` has no marker and is kept. */
  lemma DefaultHead(song: Song)
    ensures ReplaceTagTokensAll("Now Playing", Resolve(song), true) == Returned(11, "Now Playing")
  {
    PlainTemplateCopied("Now Playing", Resolve(song));
  }

  /** `%%` stands for one `%`, and a `%` ending the template right after a
      marker is kept. */
  lemma PercentMarkers(res: Resolver)
    ensures ReplaceTagTokensAll("100%%", res, true) == Returned(4, "100%")
    ensures ReplaceTagTokensAll("%%%", res, true) == Returned(2, "%%")
  {
    assert !HasUnknownToken("100%%", res) && !DanglingAfterText("100%%");
    assert Expand("100%%", res) == "100%";
    SupportedIffExact("100%%", res);
    assert !HasUnknownToken("%%%", res) && !DanglingAfterText("%%%");
    assert Expand("%%%", res) == "%%";
    SupportedIffExact("%%%", res);
  }

  /** An unrecognized token `%c`: the length pass spins on it for ever, and
      the write pass would drop the two characters that are intended to stay. */
  lemma UnknownTokenHangs(c: char, res: Resolver)
    requires c != '%' && c != '\0' && res(c).None?
    ensures ReplaceTagTokensAll(['%', c], res, true) == Hangs
    ensures Written(['%', c], res) == "" && Expand(['%', c], res) == ['%', c]
  {
    var f := ['%', c];
    assert FindPercent(f, 0) == Some(0);
    WriteContributions(f, res, 0, 0);
    assert LengthStep(f, res, Scan(0, 2)) == Next(Scan(0, 2));
    assert FindPercent(f, 2) == None;
    assert f[2..] == "" && f[..2] == f;
  }

  /** `"%z"` is such a template. */
  lemma PercentZHangs(song: Song)
    ensures ReplaceTagTokensAll("%z", Resolve(song), true) == Hangs
  {
    assert 'z' !in TokenChars;
    assert "%z" == ['%', 'z'];
    UnknownTokenHangs('z', Resolve(song));
  }

  /** A `%` ending the template right after literal text `p`: the buffer has
      room for `p` and the `%`, the write pass stores `p` twice and then the
      `%`, past the buffer's end, and the caller gets `p` followed by its own
      first character instead of `p` followed by `%`. */
  lemma TrailingPercentOverruns(p: string, res: Resolver)
    requires 0 < |p| && '%' !in p && '\0' !in p
    ensures var f := p + "%";
      '\0' !in f &&
      ReplaceTagTokensAll(f, res, true) == Returned(|p| + 1, p + p + "%") &&
      ReplaceTagTokensAll(f, res, true).Overruns() &&
      ReplaceTagTokensAll(f, res, true).Text() == p + [p[0]] &&
      Expand(f, res) == p + "%"
  {
    assert '\0' !in p + "%" by {
      assert forall i :: 0 <= i < |p| ==> p[i] != '\0';
    }
    var f: CString := p + "%";
    var q := |p|;
    assert f[0..q] == p && f[0..] == f;
    assert FirstPercent(f, 0, q);
    StepContributions(f, res, Scan(0, |f|), q);
    WriteContributions(f, res, 0, q);
    assert Written(f, res) == p + p + "%";
    TextInFront(p, "%", res);
    assert (p + p + "%")[..q + 1] == p + [p[0]];
  }

  /** The corrected passes keep an unrecognized token `%c` and a trailing `%`
      after text `p` as written. */
  lemma CorrectedOnBoth(c: char, p: string, res: Resolver)
    requires c != '%' && c != '\0' && res(c).None?
    requires '%' !in p && '\0' !in p
    ensures FixedReplaceTagTokensAll(['%', c], res, true) == Some(['%', c])
    ensures '\0' !in p + "%" && FixedReplaceTagTokensAll(p + "%", res, true) == Some(p + "%")
  {
    assert Expand(['%', c], res) == ['%', c] by {
      assert ['%', c][2..] == "";
    }
    assert '\0' !in p + "%" by {
      assert forall i :: 0 <= i < |p| ==> p[i] != '\0';
    }
    TextInFront(p, "%", res);
  }
}
