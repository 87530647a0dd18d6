/**
  The write pass of `replace_tag_tokens_all`, as written.

  Each iteration finds the next `%`, copies the text before it, and then:
  - for a `%` that ends the template, leaves the loop WITHOUT moving `format`;
  - for `%%`, writes one `%`;
  - for a recognized token, writes its replacement;
  - for an unrecognized token, writes nothing;
  and moves `format` two characters past the `%`. After the loop, `strcpy`
  copies the template from `format` on. The model collects every character
  stored from `new[0]` on, up to but excluding the NUL that `strcpy` stores.
 */
module WritePass {
  import opened Tags
  import opened Tokens
  import opened Expansion

  /** The characters the loop and the final `strcpy` store when `format` starts at `pos`. */
  function WriteFrom(f: CString, res: Resolver, pos: nat): string
    requires pos <= |f|
    decreases |f| - pos
  {
    match FindPercent(f, pos)
    case None => f[pos..]
    case Some(q) =>
      if q + 1 == |f| then f[pos..q] + f[pos..]
      else if f[q + 1] == '%' then f[pos..q] + "%" + WriteFrom(f, res, q + 2)
      else match res(f[q + 1])
        case None => f[pos..q] + WriteFrom(f, res, q + 2)
        case Some(r) => f[pos..q] + r + WriteFrom(f, res, q + 2)
  }

  /** The characters stored into the output buffer for template `f`. */
  function Written(f: CString, res: Resolver): string {
    WriteFrom(f, res, 0)
  }

  /** What the write pass does at the first `%` it finds from `pos`: the text before
      it is copied; `%%` writes `%`, a recognized token its replacement, an
      unrecognized token nothing, and each moves on two past the `%`; a `%` that
      ends the template makes the final copy start again at `pos`. */
  lemma WriteContributions(f: CString, res: Resolver, pos: nat, q: nat)
    requires pos <= |f| && FirstPercent(f, pos, q)
    ensures q + 1 == |f| ==> WriteFrom(f, res, pos) == f[pos..q] + f[pos..]
    ensures q + 1 < |f| && f[q + 1] == '%' ==>
      WriteFrom(f, res, pos) == f[pos..q] + "%" + WriteFrom(f, res, q + 2)
    ensures q + 1 < |f| && f[q + 1] != '%' && res(f[q + 1]).Some? ==>
      WriteFrom(f, res, pos) == f[pos..q] + res(f[q + 1]).value + WriteFrom(f, res, q + 2)
    ensures q + 1 < |f| && f[q + 1] != '%' && !res(f[q + 1]).Some? ==>
      WriteFrom(f, res, pos) == f[pos..q] + WriteFrom(f, res, q + 2)
  {
    FindPercentIsFirst(f, pos, q);
  }

  /** A handled marker writes its text and moves on two past the `%`. */
  lemma WriteSkipsMarker(f: CString, res: Resolver, pos: nat, q: nat)
    requires pos <= |f| && FirstPercent(f, pos, q) && q + 1 < |f| && Handled(f[q + 1], res)
    ensures WriteFrom(f, res, pos) == f[pos..q] + MarkerText(f[q + 1], res) + WriteFrom(f, res, q + 2)
  {
    WriteContributions(f, res, pos, q);
  }

  /** `w` overshoots the intended text `e`: it is longer, agrees with `e` before
      `e`'s last character, and holds something other than that last `%` there. */
  predicate Overshoots(w: string, e: string) {
    0 < |e| < |w| && e[|e| - 1] == '%' && w[|e| - 1] != '%' && w[..|e| - 1] == e[..|e| - 1]
  }

  /** How the write pass from `pos` relates to the intended text, when the rest
      of the template holds no unrecognized token. */
  predicate WriteMatches(f: CString, res: Resolver, pos: nat)
    requires pos <= |f|
  {
    !HasUnknownToken(f[pos..], res) ==>
      if DanglingAfterText(f[pos..]) then Overshoots(WriteFrom(f, res, pos), Expand(f[pos..], res))
      else WriteFrom(f, res, pos) == Expand(f[pos..], res)
  }

  /** No `%` is left: the rest is copied as is. */
  lemma WriteAtPlain(f: CString, res: Resolver, pos: nat)
    requires pos <= |f| && '%' !in f[pos..]
    ensures WriteMatches(f, res, pos)
  {
    PlainSegment(f, res, pos);
    FindPercentFinds(f, pos);
  }

  /** A `%` ending the template right after literal text makes the write pass
      store that text twice; right after a marker it stores just the `%`. */
  lemma WriteAtTrailing(f: CString, res: Resolver, pos: nat, q: nat)
    requires pos <= |f| && FirstPercent(f, pos, q) && q + 1 == |f|
    ensures WriteMatches(f, res, pos)
    ensures DanglingAfterText(f[pos..]) <==> pos < q
  {
    SegmentSplit(f, res, pos, q);
    WriteContributions(f, res, pos, q);
    assert f[q..] == "%";
    if pos < q {
      assert f[pos..q][0] == f[pos];
      assert f[pos] != '%' by {
        assert f[pos] in f[pos..q];
      }
    } else {
      assert f[pos..q] == "";
    }
  }

  /** The next marker is an unrecognized token: nothing is claimed. */
  lemma WriteAtUnknown(f: CString, res: Resolver, pos: nat, q: nat)
    requires pos <= |f| && FirstPercent(f, pos, q) && q + 1 < |f| && !Handled(f[q + 1], res)
    ensures HasUnknownToken(f[pos..], res)
  {
    SegmentSplit(f, res, pos, q);
    MarkerFlags(f, q, res);
  }

  /** Bookkeeping for one handled marker: prefixing the same text `p` to the
      stored and the intended characters keeps how they relate. */
  lemma PrefixKeepsOvershoot(p: string, w: string, e: string)
    requires Overshoots(w, e)
    ensures Overshoots(p + w, p + e)
  {
    var w', e' := p + w, p + e;
    assert w'[..|e'| - 1] == p + w[..|e| - 1];
    assert e'[..|e'| - 1] == p + e[..|e| - 1];
  }

  /** The next marker is handled: the write pass writes its text and goes on. */
  lemma {:induction false} WriteAtMarker(f: CString, res: Resolver, pos: nat, q: nat)
    requires pos <= |f| && FirstPercent(f, pos, q) && q + 1 < |f| && Handled(f[q + 1], res)
    ensures WriteMatches(f, res, pos)
    decreases |f| - pos, 0
  {
    var p := f[pos..q] + MarkerText(f[q + 1], res);
    var w, e := WriteFrom(f, res, q + 2), Expand(f[q + 2..], res);
    assert WriteFrom(f, res, pos) == p + w by {
      WriteSkipsMarker(f, res, pos, q);
    }
    assert Expand(f[pos..], res) == p + e
        && HasUnknownToken(f[pos..], res) == HasUnknownToken(f[q + 2..], res)
        && DanglingAfterText(f[pos..]) == DanglingAfterText(f[q + 2..]) by {
      ExpandSkipsMarker(f, res, pos, q);
    }
    WriteFromMeaning(f, res, q + 2);
    if !HasUnknownToken(f[q + 2..], res) && DanglingAfterText(f[q + 2..]) {
      PrefixKeepsOvershoot(p, w, e);
    }
  }

  /** Without unrecognized tokens, the write pass from `pos` stores exactly the
      intended text unless the rest ends in a `%` right after literal text. In
      that case it stores more characters than intended, agreeing with the
      intended text on all but its last character, a `%` where the write pass
      stores some other character. */
  lemma {:induction false} WriteFromMeaning(f: CString, res: Resolver, pos: nat)
    requires pos <= |f|
    ensures var w, e := WriteFrom(f, res, pos), Expand(f[pos..], res);
      !HasUnknownToken(f[pos..], res) ==>
        if DanglingAfterText(f[pos..]) then Overshoots(w, e) else w == e
    decreases |f| - pos, 1
  {
    var next := FindPercent(f, pos);
    FindPercentFinds(f, pos);
    if next.None? {
      WriteAtPlain(f, res, pos);
    } else {
      var q := next.value;
      if q + 1 == |f| {
        WriteAtTrailing(f, res, pos, q);
      } else if Handled(f[q + 1], res) {
        WriteAtMarker(f, res, pos, q);
      } else {
        WriteAtUnknown(f, res, pos, q);
      }
    }
  }

  /** The write pass stores the intended text exactly for the supported templates;
      for every other template without unrecognized tokens it stores more
      characters than the intended text has. */
  lemma WrittenMeaning(f: CString, res: Resolver)
    requires !HasUnknownToken(f, res)
    ensures Written(f, res) == Expand(f, res) <==> !DanglingAfterText(f)
    ensures DanglingAfterText(f) ==> Overshoots(Written(f, res), Expand(f, res))
  {
    WriteFromMeaning(f, res, 0);
    assert f[0..] == f;
  }
}
