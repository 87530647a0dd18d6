/**
  The length pass, `get_replaced_format_string_length`, as written.

  The C loop keeps two variables: the `format` pointer and the running `size`,
  which starts at the template's length. One iteration finds the next `%` with
  `strchr` and then:
  - stops when the `%` is the template's last character;
  - for `%%`, takes one off `size`;
  - for a recognized token, adds the replacement's length minus two;
  - for an unrecognized token, `continue`s with `format` left ON that `%`;
  and otherwise moves `format` two characters past the `%`.

  Because of the `continue`, the loop can spin forever, so it is modelled as a
  step function on its state; `LengthFrom` returns None exactly when the loop
  reaches a state that steps to itself, and `NoneMeansEndlessLoop` shows that
  such a run never leaves the loop.

  `size` is modelled as an unbounded integer; `LengthStep64` and `Length64`
  run the same loop in `size_t` arithmetic and are proved to agree with it
  modulo 2^64.
 */
module LengthPass {
  import opened Tags
  import opened Tokens
  import opened Expansion

  /** The loop's state between iterations: `format` as an index, and `size`. */
  datatype Scan = Scan(pos: nat, size: int)

  /** The result of one iteration: the next state, or the `size` it returns with. */
  datatype Step = Next(scan: Scan) | Exit(size: int)

  /** One iteration of the loop. It never moves `format` backwards, and it keeps
      `size` at least as large as the part of the template still to be scanned,
      so that `size` never goes negative. */
  function LengthStep(f: CString, res: Resolver, s: Scan): (r: Step)
    requires s.pos <= |f|
    ensures r.Next? ==> r.scan.pos <= |f|
    ensures r.Next? ==> r.scan == s || s.pos < r.scan.pos
    ensures s.size >= |f| - s.pos && r.Next? ==> r.scan.size >= |f| - r.scan.pos
    ensures s.size >= |f| - s.pos && r.Exit? ==> r.size >= 0
  {
    match FindPercent(f, s.pos)
    case None => Exit(s.size)
    case Some(q) =>
      if q + 1 == |f| then Exit(s.size)
      else if f[q + 1] == '%' then Next(Scan(q + 2, s.size - 1))
      else match res(f[q + 1])
        case None => Next(Scan(q, s.size))
        case Some(r) => Next(Scan(q + 2, s.size + |r| - 2))
  }

  /** The state reached after at most `n` more iterations from `s`,
      or the value returned if the loop exits before that. */
  function Run(f: CString, res: Resolver, s: Scan, n: nat): (r: Step)
    requires s.pos <= |f|
    ensures r.Next? ==> r.scan.pos <= |f|
    ensures s.size >= |f| - s.pos && r.Next? ==> r.scan.size >= |f| - r.scan.pos
    ensures s.size >= |f| - s.pos && r.Exit? ==> r.size >= 0
    decreases n
  {
    if n == 0 then Next(s)
    else match LengthStep(f, res, s)
      case Exit(k) => Exit(k)
      case Next(t) => Run(f, res, t, n - 1)
  }

  /** The value the loop returns when started in state `s`, or None when it
      never returns. */
  function LengthFrom(f: CString, res: Resolver, s: Scan): (r: Option<int>)
    requires s.pos <= |f|
    ensures s.size >= |f| - s.pos && r.Some? ==> r.value >= 0
    decreases |f| - s.pos
  {
    match LengthStep(f, res, s)
    case Exit(k) => Some(k)
    case Next(t) => if t == s then None else LengthFrom(f, res, t)
  }

  /** `get_replaced_format_string_length(f, song)` with `res` resolving tokens
      for `song`; None when it does not return. */
  function Length(f: CString, res: Resolver): (r: Option<nat>)
  {
    match LengthFrom(f, res, Scan(0, |f|))
    case None => None
    case Some(k) => Some(k)
  }

  /** What one iteration does, described by the first `%` it finds: a trailing
      `%` stops the scan, `%%` counts one character, a recognized token counts
      its replacement's length, and each of these moves two past the `%`; an
      unrecognized token leaves `format` on its `%`. */
  lemma StepContributions(f: CString, res: Resolver, s: Scan, q: nat)
    requires s.pos <= |f| && FirstPercent(f, s.pos, q)
    ensures q + 1 == |f| ==> LengthStep(f, res, s) == Exit(s.size)
    ensures q + 1 < |f| && f[q + 1] == '%' ==>
      LengthStep(f, res, s) == Next(Scan(q + 2, s.size - 1))
    ensures q + 1 < |f| && f[q + 1] != '%' && res(f[q + 1]).Some? ==>
      LengthStep(f, res, s) == Next(Scan(q + 2, s.size + |res(f[q + 1]).value| - 2))
    ensures q + 1 < |f| && f[q + 1] != '%' && !res(f[q + 1]).Some? ==>
      LengthStep(f, res, s) == Next(Scan(q, s.size))
  {
    FindPercentIsFirst(f, s.pos, q);
  }

  /** A state on an unrecognized token steps to itself forever. */
  lemma {:induction false} Spins(f: CString, res: Resolver, s: Scan, n: nat)
    requires s.pos <= |f| && LengthStep(f, res, s) == Next(s)
    ensures Run(f, res, s, n) == Next(s)
    decreases n
  {
    if n > 0 {
      Spins(f, res, s, n - 1);
    }
  }

  /** None is exactly non-termination: from a state where `LengthFrom` gives
      None no number of iterations exits the loop, and where it gives `k` some
      number of iterations exits with `k`. */
  lemma {:induction false} NoneMeansEndlessLoop(f: CString, res: Resolver, s: Scan)
    requires s.pos <= |f|
    ensures LengthFrom(f, res, s).None? ==> forall n: nat :: Run(f, res, s, n).Next?
    ensures LengthFrom(f, res, s).Some? ==>
      exists n: nat :: Run(f, res, s, n) == Exit(LengthFrom(f, res, s).value)
    decreases |f| - s.pos
  {
    match LengthStep(f, res, s)
    case Exit(k) =>
      assert Run(f, res, s, 1) == Exit(k);
    case Next(t) =>
      if t == s {
        forall n: nat ensures Run(f, res, s, n).Next? {
          Spins(f, res, s, n);
        }
      } else {
        NoneMeansEndlessLoop(f, res, t);
        if LengthFrom(f, res, t).None? {
          forall n: nat ensures Run(f, res, s, n).Next? {
            if n > 0 {
              assert Run(f, res, s, n) == Run(f, res, t, n - 1);
            }
          }
        } else {
          var n: nat :| Run(f, res, t, n) == Exit(LengthFrom(f, res, t).value);
          assert Run(f, res, s, n + 1) == Run(f, res, t, n);
        }
      }
  }

  /** A handled marker is one iteration that moves past it. */
  lemma LengthSkipsMarker(f: CString, res: Resolver, s: Scan, q: nat)
    requires s.pos <= |f| && FirstPercent(f, s.pos, q) && q + 1 < |f|
    requires Handled(f[q + 1], res)
    ensures LengthFrom(f, res, s) ==
      LengthFrom(f, res, Scan(q + 2, s.size + |MarkerText(f[q + 1], res)| - 2))
  {
    var t := Scan(q + 2, s.size + |MarkerText(f[q + 1], res)| - 2);
    StepContributions(f, res, s, q);
    if f[q + 1] == '%' {
      assert LengthStep(f, res, s) == Next(t);
    } else {
      assert LengthStep(f, res, s) == Next(t);
    }
    assert t != s;
  }

  /** What the loop started in state `s` returns: None when the rest of the
      template holds an unrecognized token, and otherwise `size` adjusted by how
      much the rest grows or shrinks when substituted. */
  function Predicted(f: CString, res: Resolver, s: Scan): Option<int>
    requires s.pos <= |f|
  {
    if HasUnknownToken(f[s.pos..], res) then None
    else Some(s.size - (|f| - s.pos) + |Expand(f[s.pos..], res)|)
  }

  /** No `%` is left: the loop returns `size`. */
  lemma LengthAtPlain(f: CString, res: Resolver, s: Scan)
    requires s.pos <= |f| && '%' !in f[s.pos..]
    ensures LengthFrom(f, res, s) == Predicted(f, res, s)
  {
    PlainSegment(f, res, s.pos);
    FindPercentFinds(f, s.pos);
    assert LengthStep(f, res, s) == Exit(s.size);
  }

  /** The next `%` ends the template: the loop returns `size`. */
  lemma LengthAtTrailing(f: CString, res: Resolver, s: Scan, q: nat)
    requires s.pos <= |f| && FirstPercent(f, s.pos, q) && q + 1 == |f|
    ensures LengthFrom(f, res, s) == Predicted(f, res, s)
  {
    SegmentSplit(f, res, s.pos, q);
    StepContributions(f, res, s, q);
    assert f[q..] == "%";
  }

  /** The next marker is an unrecognized token: the loop never returns. */
  lemma LengthAtUnknown(f: CString, res: Resolver, s: Scan, q: nat)
    requires s.pos <= |f| && FirstPercent(f, s.pos, q) && q + 1 < |f| && !Handled(f[q + 1], res)
    ensures LengthFrom(f, res, s) == Predicted(f, res, s) == None
  {
    SegmentSplit(f, res, s.pos, q);
    MarkerFlags(f, q, res);
    StepContributions(f, res, s, q);
    if q > s.pos {
      StepContributions(f, res, Scan(q, s.size), q);
    }
  }

  /** Bookkeeping for a handled marker at `q`: a marker standing for `n`
      characters changes `size` by `n - 2`, and the prediction carries over. */
  lemma PredictedSkipsMarker(f: CString, res: Resolver, s: Scan, q: nat)
    requires s.pos <= |f| && FirstPercent(f, s.pos, q) && q + 1 < |f| && Handled(f[q + 1], res)
    ensures Predicted(f, res, s) ==
      Predicted(f, res, Scan(q + 2, s.size + |MarkerText(f[q + 1], res)| - 2))
  {
    ExpandSkipsMarker(f, res, s.pos, q);
  }

  /** The next marker is handled: the loop moves past it and goes on. */
  lemma {:induction false} LengthAtMarker(f: CString, res: Resolver, s: Scan, q: nat)
    requires s.pos <= |f| && FirstPercent(f, s.pos, q) && q + 1 < |f| && Handled(f[q + 1], res)
    ensures LengthFrom(f, res, s) == Predicted(f, res, s)
    decreases |f| - s.pos, 0
  {
    var t := Scan(q + 2, s.size + |MarkerText(f[q + 1], res)| - 2);
    LengthSkipsMarker(f, res, s, q);
    PredictedSkipsMarker(f, res, s, q);
    LengthFromMeaning(f, res, t);
  }

  /** The loop started in state `s` returns iff the rest of the template holds no
      unrecognized token, and then it returns `size` adjusted by how much the
      rest grows or shrinks when substituted. */
  lemma {:induction false} LengthFromMeaning(f: CString, res: Resolver, s: Scan)
    requires s.pos <= |f|
    ensures LengthFrom(f, res, s) == Predicted(f, res, s)
    decreases |f| - s.pos, 1
  {
    var next := FindPercent(f, s.pos);
    FindPercentFinds(f, s.pos);
    if next.None? {
      LengthAtPlain(f, res, s);
    } else {
      var q := next.value;
      if q + 1 == |f| {
        LengthAtTrailing(f, res, s, q);
      } else if Handled(f[q + 1], res) {
        LengthAtMarker(f, res, s, q);
      } else {
        LengthAtUnknown(f, res, s, q);
      }
    }
  }

  /** The length pass returns iff the template holds no unrecognized token, and
      then it returns the length of the intended substitution. */
  lemma LengthMeaning(f: CString, res: Resolver)
    ensures Length(f, res).None? <==> HasUnknownToken(f, res)
    ensures Length(f, res).Some? ==> Length(f, res).value == |Expand(f, res)|
  {
    LengthFromMeaning(f, res, Scan(0, |f|));
    assert f[0..] == f;
  }

  /** The running size never goes negative on any iteration of the loop. */
  lemma SizeNeverNegative(f: CString, res: Resolver, n: nat)
    ensures Run(f, res, Scan(0, |f|), n).Next? ==> Run(f, res, Scan(0, |f|), n).scan.size >= 0
    ensures Run(f, res, Scan(0, |f|), n).Exit? ==> Run(f, res, Scan(0, |f|), n).size >= 0
  {
  }

  /** `size_t` is an unsigned 64-bit integer: its arithmetic is modulo 2^64. */
  const SizeModulus: int := 0x1_0000_0000_0000_0000

  /** The `size_t` value of an integer. */
  function Wrap(x: int): (r: nat)
    ensures r < SizeModulus && (x - r) % SizeModulus == 0
    ensures 0 <= x < SizeModulus ==> r == x
  {
    x % SizeModulus
  }

  /** Reducing a summand first does not change the sum's `size_t` value. */
  lemma WrapAdd(x: int, y: int)
    ensures Wrap(Wrap(x) + y) == Wrap(x + y)
  {
    var k := x / SizeModulus;
    assert x == k * SizeModulus + Wrap(x);
    assert (Wrap(x) + y) - (x + y) == -k * SizeModulus;
  }

  /** One iteration of the loop as the C code computes it, with `size` a
      `size_t`: `size--` and `size += strlen(replacement) - 2`, where the
      subtraction already wraps when the replacement is shorter than two. */
  function LengthStep64(f: CString, res: Resolver, s: Scan): (r: Step)
    requires s.pos <= |f|
    ensures r.Next? ==> r.scan.pos <= |f|
    ensures r.Next? ==> r.scan == s || s.pos < r.scan.pos
  {
    match FindPercent(f, s.pos)
    case None => Exit(s.size)
    case Some(q) =>
      if q + 1 == |f| then Exit(s.size)
      else if f[q + 1] == '%' then Next(Scan(q + 2, Wrap(s.size - 1)))
      else match res(f[q + 1])
        case None => Next(Scan(q, s.size))
        case Some(r) => Next(Scan(q + 2, Wrap(s.size + Wrap(|r| - 2))))
  }

  /** A loop state with `size` reduced to its `size_t` value. */
  function WrapScan(s: Scan): Scan {
    Scan(s.pos, Wrap(s.size))
  }

  /** The `size_t` step agrees with the exact step modulo 2^64: from the
      reduced state it goes where the exact step goes, with `size` reduced. */
  lemma StepWraps(f: CString, res: Resolver, s: Scan)
    requires s.pos <= |f|
    ensures LengthStep(f, res, s).Exit? <==> LengthStep64(f, res, WrapScan(s)).Exit?
    ensures LengthStep(f, res, s).Exit? ==>
      LengthStep64(f, res, WrapScan(s)).size == Wrap(LengthStep(f, res, s).size)
    ensures LengthStep(f, res, s).Next? ==>
      LengthStep64(f, res, WrapScan(s)).scan == WrapScan(LengthStep(f, res, s).scan)
  {
    match FindPercent(f, s.pos)
    case None =>
    case Some(q) =>
      if q + 1 < |f| {
        if f[q + 1] == '%' {
          WrapAdd(s.size, -1);
        } else if res(f[q + 1]).Some? {
          var n := |res(f[q + 1]).value|;
          WrapAdd(s.size, Wrap(n - 2));
          WrapAdd(n - 2, s.size);
        }
      }
  }

  /** What the C loop returns when started in state `s`, `size_t` arithmetic
      included, or None when it never returns. */
  function LengthFrom64(f: CString, res: Resolver, s: Scan): Option<int>
    requires s.pos <= |f|
    decreases |f| - s.pos
  {
    match LengthStep64(f, res, s)
    case Exit(k) => Some(k)
    case Next(t) => if t == s then None else LengthFrom64(f, res, t)
  }

  /** The `size_t` value `get_replaced_format_string_length` returns, starting
      from `strlen(format)`; None when it does not return. */
  function Length64(f: CString, res: Resolver): Option<int> {
    LengthFrom64(f, res, Scan(0, Wrap(|f|)))
  }

  /** The `size_t` loop returns exactly when the exact loop does, with the
      exact value reduced modulo 2^64. */
  lemma {:induction false} LengthFromWraps(f: CString, res: Resolver, s: Scan)
    requires s.pos <= |f|
    ensures LengthFrom64(f, res, WrapScan(s)).None? <==> LengthFrom(f, res, s).None?
    ensures LengthFrom(f, res, s).Some? ==>
      LengthFrom64(f, res, WrapScan(s)).value == Wrap(LengthFrom(f, res, s).value)
    decreases |f| - s.pos
  {
    StepWraps(f, res, s);
    match LengthStep(f, res, s)
    case Exit(k) =>
    case Next(t) =>
      assert t == s <==> WrapScan(t) == WrapScan(s);
      if t != s {
        LengthFromWraps(f, res, t);
      }
  }

  /** With `size_t` arithmetic the length pass returns iff the template has no
      unrecognized token, and then it returns the intended text's length
      modulo 2^64: exactly that length whenever it is below 2^64. Wrapping
      along the way (`strlen(r) - 2` for a replacement shorter than two, or a
      running size that passes 2^64 and comes back) changes nothing. */
  lemma Length64Meaning(f: CString, res: Resolver)
    ensures Length64(f, res).None? <==> HasUnknownToken(f, res)
    ensures Length64(f, res).Some? ==> Length64(f, res).value == Wrap(|Expand(f, res)|)
    ensures Length64(f, res).Some? && |Expand(f, res)| < SizeModulus ==>
      Length64(f, res).value == |Expand(f, res)|
  {
    LengthFromWraps(f, res, Scan(0, |f|));
    LengthFromMeaning(f, res, Scan(0, |f|));
    assert f[0..] == f;
  }
}
