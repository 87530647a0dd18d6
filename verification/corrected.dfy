/**
  The two passes as evidently intended: both treat an unrecognized token as
  literal text (the length pass moves past it with `size` unchanged, the write
  pass copies its two characters), and the write pass keeps a trailing `%`
  by leaving its loop with `format` on that `%`. Both passes then agree with
  the intended text on every template.
 */
module Corrected {
  import opened Tags
  import opened Tokens
  import opened Expansion

  /** The text one marker `%c` stands for in the corrected passes: `%%` one `%`,
      a recognized token its replacement, any other `%c` its own two characters. */
  function FixedMarkerText(c: char, res: Resolver): string {
    if c == '%' then "%"
    else match res(c)
      case Some(r) => r
      case None => ['%', c]
  }

  /** One iteration of the corrected passes from `pos`: the next marker's index
      and the text it stands for, or None when no marker is left to move past
      (no `%`, or only a `%` ending the template). */
  function FixedMarker(f: CString, res: Resolver, pos: nat): (r: Option<(nat, string)>)
    requires pos <= |f|
    ensures r.Some? ==> pos <= r.value.0 && r.value.0 + 2 <= |f|
  {
    match FindPercent(f, pos)
    case None => None
    case Some(q) =>
      if q + 1 == |f| then None
      else Some((q, FixedMarkerText(f[q + 1], res)))
  }

  /** The length pass with the `continue` replaced by moving past the marker:
      each marker changes `size` by its text's length minus its own two characters. */
  function FixedLengthFrom(f: CString, res: Resolver, pos: nat, size: int): int
    requires pos <= |f|
    decreases |f| - pos
  {
    match FixedMarker(f, res, pos)
    case None => size
    case Some((q, m)) => FixedLengthFrom(f, res, q + 2, size + |m| - 2)
  }

  function FixedLength(f: CString, res: Resolver): int {
    FixedLengthFrom(f, res, 0, |f|)
  }

  /** The write pass copying unrecognized markers and keeping a trailing `%`:
      when no marker is left the rest is copied as is. */
  function FixedWriteFrom(f: CString, res: Resolver, pos: nat): string
    requires pos <= |f|
    decreases |f| - pos
  {
    match FixedMarker(f, res, pos)
    case None => f[pos..]
    case Some((q, m)) => f[pos..q] + m + FixedWriteFrom(f, res, q + 2)
  }

  function FixedWrite(f: CString, res: Resolver): string {
    FixedWriteFrom(f, res, 0)
  }

  /** The corrected passes find exactly the first `%` that is not the template's last character. */
  lemma FixedMarkerIsFirst(f: CString, res: Resolver, pos: nat, q: nat)
    requires pos <= |f| && FirstPercent(f, pos, q) && q + 1 < |f|
    ensures FixedMarker(f, res, pos) == Some((q, FixedMarkerText(f[q + 1], res)))
  {
    FindPercentIsFirst(f, pos, q);
  }

  /** Read from the front, the first marker stands for `FixedMarkerText`. */
  lemma ExpandAtMarker(f: CString, res: Resolver, pos: nat, q: nat)
    requires FirstPercent(f, pos, q) && q + 1 < |f|
    ensures Expand(f[pos..], res) == f[pos..q] + FixedMarkerText(f[q + 1], res) + Expand(f[q + 2..], res)
    ensures |Expand(f[pos..], res)| ==
      (q - pos) + |FixedMarkerText(f[q + 1], res)| + |Expand(f[q + 2..], res)|
  {
    var m, e := FixedMarkerText(f[q + 1], res), Expand(f[q + 2..], res);
    assert Expand(f[pos..], res) == f[pos..q] + Expand(f[q..], res) by {
      SegmentSplit(f, res, pos, q);
    }
    assert Expand(f[q..], res) == m + e by {
      MarkerExpand(f, res, q);
      assert f[q..q + 2] == ['%', f[q + 1]];
    }
    assert f[pos..q] + (m + e) == f[pos..q] + m + e;
  }

  /** The corrected length pass from `pos` adjusts `size` by exactly how much
      the corrected write pass from `pos` grows or shrinks the rest of the template. */
  lemma {:induction false} FixedLengthCountsWrite(f: CString, res: Resolver, pos: nat, size: int)
    requires pos <= |f|
    ensures FixedLengthFrom(f, res, pos, size) == size - (|f| - pos) + |FixedWriteFrom(f, res, pos)|
    decreases |f| - pos
  {
    match FixedMarker(f, res, pos)
    case None =>
    case Some((q, m)) =>
      var w := FixedWriteFrom(f, res, q + 2);
      assert FixedWriteFrom(f, res, pos) == f[pos..q] + m + w;
      assert FixedLengthFrom(f, res, pos, size) == FixedLengthFrom(f, res, q + 2, size + |m| - 2);
      FixedLengthCountsWrite(f, res, q + 2, size + |m| - 2);
  }

  /** The corrected write pass writes a marker's text and moves past it. */
  lemma FixedWriteSkips(f: CString, res: Resolver, pos: nat, q: nat)
    requires pos <= |f| && FirstPercent(f, pos, q) && q + 1 < |f|
    ensures FixedWriteFrom(f, res, pos) ==
      f[pos..q] + FixedMarkerText(f[q + 1], res) + FixedWriteFrom(f, res, q + 2)
  {
    var m := FixedMarkerText(f[q + 1], res);
    assert FixedMarker(f, res, pos) == Some((q, m)) by {
      FixedMarkerIsFirst(f, res, pos, q);
    }
  }

  /** At a marker the corrected write pass writes its text and goes on. */
  lemma {:induction false} FixedWriteAtMarker(f: CString, res: Resolver, pos: nat, q: nat)
    requires pos <= |f| && FirstPercent(f, pos, q) && q + 1 < |f|
    ensures FixedWriteFrom(f, res, pos) == Expand(f[pos..], res)
    decreases |f| - pos, 0
  {
    FixedWriteSkips(f, res, pos, q);
    ExpandAtMarker(f, res, pos, q);
    FixedWriteFromMeaning(f, res, q + 2);
  }

  /** The corrected write pass from `pos` stores exactly the intended text. */
  lemma {:induction false} FixedWriteFromMeaning(f: CString, res: Resolver, pos: nat)
    requires pos <= |f|
    ensures FixedWriteFrom(f, res, pos) == Expand(f[pos..], res)
    decreases |f| - pos, 1
  {
    var next := FindPercent(f, pos);
    FindPercentFinds(f, pos);
    if next.None? {
      PlainSegment(f, res, pos);
    } else if next.value + 1 == |f| {
      var q := next.value;
      assert Expand(f[pos..], res) == f[pos..q] + Expand(f[q..], res) by {
        SegmentSplit(f, res, pos, q);
      }
      assert f[q..] == "%";
    } else {
      FixedWriteAtMarker(f, res, pos, next.value);
    }
  }

  /** The corrected passes agree: the length pass computes the length of what
      the write pass stores, which is the intended text, on every template. */
  lemma FixedPassesAgree(f: CString, res: Resolver)
    ensures FixedWrite(f, res) == Expand(f, res)
    ensures FixedLength(f, res) == |FixedWrite(f, res)|
  {
    FixedLengthCountsWrite(f, res, 0, |f|);
    FixedWriteFromMeaning(f, res, 0);
    assert f[0..] == f;
  }

  /** `replace_tag_tokens_all` with the corrected passes: None when `calloc`
      fails, and otherwise the intended text, which fills the `size + 1` byte
      buffer exactly, so that the NUL at `new[size]` cuts nothing off. */
  function FixedReplaceTagTokensAll(f: CString, res: Resolver, allocates: bool): (r: Option<string>)
    ensures allocates <==> r.Some?
    ensures r.Some? ==> r.value == Expand(f, res) && |r.value| == FixedLength(f, res)
  {
    if !allocates then None
    else
      FixedPassesAgree(f, res);
      Some(FixedWrite(f, res))
  }
}
