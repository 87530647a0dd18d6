/**
  What a template means, read marker by marker from the front, independently
  of how the two C passes walk it: the reference the passes are measured against.

  A marker is `%` followed by one character. `%%` stands for a single `%`, `%x`
  with a recognized token `x` stands for the token's replacement, and a `%` that
  ends the template stands for itself. Every other character is literal text.

  Like the C passes, which only call `get_tag_token_replacement` for the
  character after a `%`, everything here takes the token resolver as a
  parameter `res`; the program's own resolver is `Tokens.Resolve(song)`.
 */
module Expansion {
  import opened Tags
  import opened Tokens

  /** `q` is the first `%` at or after `pos` (what `strchr` finds). */
  predicate FirstPercent(f: string, pos: nat, q: nat) {
    pos <= q < |f| && f[q] == '%' && '%' !in f[pos..q]
  }

  /** `strchr(f + pos, '%')`: the index of the next `%`, or None. */
  function FindPercent(f: string, pos: nat): (r: Option<nat>)
    requires pos <= |f|
    ensures r.Some? ==> pos <= r.value < |f|
    decreases |f| - pos
  {
    if pos == |f| then None
    else if f[pos] == '%' then Some(pos)
    else FindPercent(f, pos + 1)
  }

  /** `strchr` finds the first `%`, and None when there is none. */
  lemma {:induction false} FindPercentFinds(f: string, pos: nat)
    requires pos <= |f|
    ensures FindPercent(f, pos).Some? ==> FirstPercent(f, pos, FindPercent(f, pos).value)
    ensures FindPercent(f, pos).None? <==> '%' !in f[pos..]
    decreases |f| - pos
  {
    if pos < |f| {
      assert f[pos..] == [f[pos]] + f[pos + 1..];
      if f[pos] != '%' {
        FindPercentFinds(f, pos + 1);
        var r := FindPercent(f, pos + 1);
        assert r.Some? ==> f[pos..r.value] == [f[pos]] + f[pos + 1..r.value];
      }
    }
  }

  /** `strchr` finds exactly the first `%`. */
  lemma FindPercentIsFirst(f: string, pos: nat, q: nat)
    requires FirstPercent(f, pos, q)
    ensures FindPercent(f, pos) == Some(q)
  {
    FindPercentFinds(f, pos);
    assert f[pos..][q - pos] == f[q];
    var r := FindPercent(f, pos).value;
    forall i | pos <= i < q
      ensures f[i] != '%'
    {
      assert f[pos..q][i - pos] == f[i];
    }
    forall i | pos <= i < r
      ensures f[i] != '%'
    {
      assert f[pos..r][i - pos] == f[i];
    }
  }

  /** The intended substitution result of template `s` when token characters
      resolve through `res`. An unrecognized token is kept as written. */
  function Expand(s: string, res: Resolver): string
    decreases |s|
  {
    if |s| == 0 then ""
    else if s[0] != '%' then [s[0]] + Expand(s[1..], res)
    else if |s| == 1 then "%"
    else if s[1] == '%' then "%" + Expand(s[2..], res)
    else match res(s[1])
      case Some(r) => r + Expand(s[2..], res)
      case None => s[..2] + Expand(s[2..], res)
  }

  /** Some marker of `s` is `%x` with `x` neither `%` nor a recognized token. */
  predicate HasUnknownToken(s: string, res: Resolver)
    decreases |s|
  {
    if |s| < 2 then false
    else if s[0] != '%' then HasUnknownToken(s[1..], res)
    else (s[1] != '%' && res(s[1]).None?) || HasUnknownToken(s[2..], res)
  }

  /** `s` ends in a lone `%` with literal text right before it (as in `"x%"`),
      that text not being the tail of a marker. */
  predicate DanglingAfterText(s: string)
    decreases |s|
  {
    if |s| < 2 then false
    else if s[0] != '%' then (|s| == 2 && s[1] == '%') || DanglingAfterText(s[1..])
    else DanglingAfterText(s[2..])
  }

  /** The templates the C passes handle as intended: only `%%`, recognized
      tokens, and a trailing `%` that starts its segment. */
  predicate Supported(s: string, res: Resolver) {
    !HasUnknownToken(s, res) && !DanglingAfterText(s)
  }

  /** Dropping the first of `k` literal characters leaves `k - 1` of them. */
  lemma LiteralTail(s: string, k: nat)
    requires 0 < k <= |s| && '%' !in s[..k]
    ensures s[0] != '%' && '%' !in s[1..][..k - 1]
    ensures s[1..][k - 1..] == s[k..]
    ensures s[..k] == [s[0]] + s[1..][..k - 1]
  {
    assert s[..k] == [s[0]] + s[1..][..k - 1];
    assert s[1..][k - 1..] == s[k..];
  }

  /** A run of `k` literal characters at the front of `s` is copied as is. */
  lemma {:induction false} LiteralPrefixExpand(s: string, res: Resolver, k: nat)
    requires k <= |s| && '%' !in s[..k]
    ensures Expand(s, res) == s[..k] + Expand(s[k..], res)
    decreases k
  {
    if k > 0 {
      LiteralTail(s, k);
      LiteralPrefixExpand(s[1..], res, k - 1);
    }
  }

  /** Literal characters hide no unknown token. */
  lemma {:induction false} LiteralPrefixUnknown(s: string, k: nat, res: Resolver)
    requires k <= |s| && '%' !in s[..k]
    ensures HasUnknownToken(s, res) == HasUnknownToken(s[k..], res)
    decreases k
  {
    if k > 0 {
      LiteralTail(s, k);
      LiteralPrefixUnknown(s[1..], k - 1, res);
    }
  }

  /** Literal characters make a trailing `%` right after them dangle after text. */
  lemma {:induction false} LiteralPrefixDangling(s: string, k: nat)
    requires k <= |s| && '%' !in s[..k]
    ensures DanglingAfterText(s) == ((0 < k && k + 1 == |s| && s[k] == '%') || DanglingAfterText(s[k..]))
    decreases k
  {
    if k > 0 {
      LiteralTail(s, k);
      LiteralPrefixDangling(s[1..], k - 1);
      if k > 1 {
        assert s[1] in s[..k];
      }
    }
  }

  /** A run of `k` literal characters at the front of `s` is copied as is and
      changes nothing about the markers that follow. */
  lemma LiteralPrefix(s: string, res: Resolver, k: nat)
    requires k <= |s| && '%' !in s[..k]
    ensures Expand(s, res) == s[..k] + Expand(s[k..], res)
    ensures HasUnknownToken(s, res) == HasUnknownToken(s[k..], res)
    ensures DanglingAfterText(s) == ((0 < k && k + 1 == |s| && s[k] == '%') || DanglingAfterText(s[k..]))
  {
    LiteralPrefixExpand(s, res, k);
    LiteralPrefixUnknown(s, k, res);
    LiteralPrefixDangling(s, k);
  }

  /** The text from `pos` is a literal run up to the first `%` at `q`, then markers. */
  lemma SegmentSplit(f: string, res: Resolver, pos: nat, q: nat)
    requires FirstPercent(f, pos, q)
    ensures Expand(f[pos..], res) == f[pos..q] + Expand(f[q..], res)
    ensures HasUnknownToken(f[pos..], res) == HasUnknownToken(f[q..], res)
    ensures DanglingAfterText(f[pos..]) == ((pos < q && q + 1 == |f|) || DanglingAfterText(f[q..]))
  {
    var rest := f[pos..];
    assert rest[..q - pos] == f[pos..q];
    assert rest[q - pos..] == f[q..];
    LiteralPrefix(rest, res, q - pos);
  }

  /** The text from `pos` holds no `%`: it means itself. */
  lemma PlainSegment(f: string, res: Resolver, pos: nat)
    requires pos <= |f| && '%' !in f[pos..]
    ensures Expand(f[pos..], res) == f[pos..]
    ensures !HasUnknownToken(f[pos..], res) && !DanglingAfterText(f[pos..])
  {
    PlainMeansItself(f[pos..], res);
  }

  /** A template without `%` means itself. */
  lemma PlainMeansItself(s: string, res: Resolver)
    requires '%' !in s
    ensures Expand(s, res) == s
    ensures Supported(s, res)
  {
    LiteralPrefix(s, res, |s|);
    assert s[..|s|] == s;
    assert s[|s|..] == "";
  }

  /** A marker `%c` the C passes handle: `%%` or a recognized token. */
  predicate Handled(c: char, res: Resolver) {
    c == '%' || res(c).Some?
  }

  /** The text a handled marker `%c` stands for. */
  function MarkerText(c: char, res: Resolver): string
    requires Handled(c, res)
  {
    if c == '%' then "%" else res(c).value
  }

  /** Unfolding the marker at index `q` of `f`: what it says about the flags. */
  lemma MarkerFlags(f: string, q: nat, res: Resolver)
    requires q + 1 < |f| && f[q] == '%'
    ensures HasUnknownToken(f[q..], res) == (!Handled(f[q + 1], res) || HasUnknownToken(f[q + 2..], res))
    ensures DanglingAfterText(f[q..]) == DanglingAfterText(f[q + 2..])
  {
    assert f[q..][2..] == f[q + 2..];
  }

  /** Unfolding the marker at index `q` of `f`: what it stands for. */
  lemma MarkerExpand(f: string, res: Resolver, q: nat)
    requires q + 1 < |f| && f[q] == '%'
    ensures Handled(f[q + 1], res) ==>
      Expand(f[q..], res) == MarkerText(f[q + 1], res) + Expand(f[q + 2..], res)
    ensures !Handled(f[q + 1], res) ==>
      Expand(f[q..], res) == f[q..q + 2] + Expand(f[q + 2..], res)
  {
    assert f[q..][2..] == f[q + 2..];
    assert f[q..][..2] == f[q..q + 2];
  }

  /** Read from `pos`, a handled marker at the first `%` splits the text into the
      literal run before it, the marker's text, and the rest after it. */
  lemma ExpandSkipsMarker(f: string, res: Resolver, pos: nat, q: nat)
    requires FirstPercent(f, pos, q) && q + 1 < |f| && Handled(f[q + 1], res)
    ensures Expand(f[pos..], res) == f[pos..q] + MarkerText(f[q + 1], res) + Expand(f[q + 2..], res)
    ensures |Expand(f[pos..], res)| == (q - pos) + |MarkerText(f[q + 1], res)| + |Expand(f[q + 2..], res)|
    ensures HasUnknownToken(f[pos..], res) == HasUnknownToken(f[q + 2..], res)
    ensures DanglingAfterText(f[pos..]) == DanglingAfterText(f[q + 2..])
  {
    var m, e := MarkerText(f[q + 1], res), Expand(f[q + 2..], res);
    assert Expand(f[pos..], res) == f[pos..q] + Expand(f[q..], res) by {
      SegmentSplit(f, res, pos, q);
    }
    assert Expand(f[q..], res) == m + e by {
      MarkerExpand(f, res, q);
    }
    assert f[pos..q] + (m + e) == f[pos..q] + m + e;
    assert HasUnknownToken(f[pos..], res) == HasUnknownToken(f[q + 2..], res)
        && DanglingAfterText(f[pos..]) == DanglingAfterText(f[q + 2..]) by {
      SegmentSplit(f, res, pos, q);
      MarkerFlags(f, q, res);
    }
  }
}
