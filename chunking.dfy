/**
 * Token-window chunking of `ingest_pdf.py`: `token_chunks` encodes a text,
 * walks `range(0, len(ids), max_tokens - overlap)` and yields the decoded
 * slice `ids[i : i + max_tokens]` for every start `i`.
 *
 * The tokenizer is passed in as its two functions `encode` and `decode`;
 * tokens are integers.
 */
module Chunking {
  import opened Wrappers

  datatype ChunkError =
    | ZeroStep              // `range()` raises ValueError when its step is 0
    | InvalidConfiguration  // rejected by the corrected chunker: not 0 <= overlap < max_tokens

  function Min(a: int, b: int): int {
    if a <= b then a else b
  }

  /** Python's `range(start, stop, step)` for a positive step. */
  function Range(start: nat, stop: nat, step: nat): seq<nat>
    requires step > 0
    decreases if start < stop then stop - start else 0
  {
    if start >= stop then [] else [start] + Range(start + step, stop, step)
  }

  /** Python's `s[lo:hi]` for `lo >= 0`: the start is clamped to the length,
      a negative stop counts from the end, and the slice is empty when the
      stop is not past the start. */
  function PySlice(s: seq<int>, lo: nat, hi: int): seq<int> {
    var start := if lo > |s| then |s| else lo;
    var stop := if hi < 0 then (if |s| + hi < 0 then 0 else |s| + hi)
                else if hi > |s| then |s| else hi;
    if start >= stop then [] else s[start..stop]
  }

  /** The token windows `token_chunks` decodes: one per start offset `i` of
      `range(0, len(ids), step)`, namely `ids[i : i + max_tokens]`. */
  function Windows(ids: seq<int>, maxTokens: int, step: nat): seq<seq<int>>
    requires step > 0
  {
    var starts := Range(0, |ids|, step);
    seq(|starts|, k requires 0 <= k < |starts| => PySlice(ids, starts[k], starts[k] + maxTokens))
  }

  function DecodeAll(decode: seq<int> -> string, ws: seq<seq<int>>): seq<string> {
    seq(|ws|, k requires 0 <= k < |ws| => decode(ws[k]))
  }

  /** `list(token_chunks(text, tokenizer, max_tokens, overlap))`. A zero step
      makes `range()` raise; a negative step makes the range empty. */
  method TokenChunks(text: string, encode: string -> seq<int>, decode: seq<int> -> string,
                     maxTokens: int, overlap: int)
    returns (chunks: Result<seq<string>, ChunkError>)
    ensures maxTokens - overlap == 0 ==> chunks == Err(ZeroStep)
    ensures maxTokens - overlap < 0 ==> chunks == Ok([])
    ensures maxTokens - overlap > 0 ==>
              chunks == Ok(DecodeAll(decode, Windows(encode(text), maxTokens, maxTokens - overlap)))
  {
    var ids := encode(text);
    var step := maxTokens - overlap;
    if step == 0 {
      return Err(ZeroStep);
    }
    if step < 0 {
      return Ok([]);
    }
    var out: seq<string> := [];
    ghost var starts: seq<nat> := [];
    var i: nat := 0;
    while i < |ids|
      invariant Range(0, |ids|, step) == starts + Range(i, |ids|, step)
      invariant |out| == |starts|
      invariant forall k :: 0 <= k < |out| ==> out[k] == decode(PySlice(ids, starts[k], starts[k] + maxTokens))
      decreases |ids| - i
    {
      assert Range(i, |ids|, step) == [i] + Range(i + step, |ids|, step);
      assert starts + ([i] + Range(i + step, |ids|, step)) == (starts + [i]) + Range(i + step, |ids|, step);
      out := out + [decode(PySlice(ids, i, i + maxTokens))];
      starts := starts + [i];
      i := i + step;
    }
    assert Range(i, |ids|, step) == [];
    DecodeWindows(decode, ids, maxTokens, step, starts, out);
    return Ok(out);
  }

  lemma DecodeWindows(decode: seq<int> -> string, ids: seq<int>, maxTokens: int, step: nat,
                      starts: seq<nat>, out: seq<string>)
    requires step > 0 && starts == Range(0, |ids|, step) && |out| == |starts|
    requires forall k :: 0 <= k < |out| ==> out[k] == decode(PySlice(ids, starts[k], starts[k] + maxTokens))
    ensures out == DecodeAll(decode, Windows(ids, maxTokens, step))
  {
    var W := Windows(ids, maxTokens, step);
    assert |W| == |out|;
    assert forall k :: 0 <= k < |out| ==> out[k] == decode(W[k]);
  }

  // ---------------------------------------------------------------------------
  // Arithmetic helpers

  lemma MulNonneg(x: nat, y: nat)
    ensures x * y >= 0
  {
  }

  lemma DivUnique(a: int, b: int, q: int)
    requires b > 0 && q * b <= a < q * b + b
    ensures a / b == q
  {
    var d := a / b;
    var m := a % b;
    assert a == d * b + m && 0 <= m < b;
    if d < q {
      MulNonneg(q - d - 1, b);
    } else if d > q {
      MulNonneg(d - q - 1, b);
    }
  }

  lemma MulStrict(k: int, l: int, step: int)
    requires k < l && step > 0
    ensures k * step < l * step
  {
    assert (l - k) * step > 0;
  }

  // ---------------------------------------------------------------------------
  // Properties of the windows as the code computes them

  /** `range(start, stop, step)` starts at `start`, goes up by `step`, stays
      below `stop`, and stops at the first value that would reach `stop`. */
  lemma {:induction false} RangeSteps(start: nat, stop: nat, step: nat)
    requires step > 0
    ensures var r := Range(start, stop, step);
            (r != [] <==> start < stop)
            && (r != [] ==> r[0] == start && r[|r| - 1] < stop <= r[|r| - 1] + step)
            && (forall k :: 0 <= k < |r| ==> start <= r[k] < stop)
            && (forall k :: 0 <= k < |r| - 1 ==> r[k + 1] == r[k] + step)
    decreases if start < stop then stop - start else 0
  {
    if start < stop {
      RangeSteps(start + step, stop, step);
    }
  }

  /** The `k`-th value of `range(start, stop, step)` is `start + k * step`. */
  lemma {:induction false} RangeAt(start: nat, stop: nat, step: nat, k: nat)
    requires step > 0
    requires k < |Range(start, stop, step)|
    ensures Range(start, stop, step)[k] == start + k * step
    decreases k
  {
    if k > 0 {
      RangeAt(start + step, stop, step, k - 1);
      assert start + step + (k - 1) * step == start + k * step;
    }
  }

  /** `range(start, stop, step)` has ⌈(stop - start) / step⌉ values. */
  lemma RangeLength(start: nat, stop: nat, step: nat)
    requires step > 0
    ensures var c := |Range(start, stop, step)|;
            start < stop ==> (c - 1) * step < stop - start <= c * step
  {
    RangeSteps(start, stop, step);
    var c := |Range(start, stop, step)|;
    if start < stop {
      RangeAt(start, stop, step, c - 1);
      assert (c - 1) * step + step == c * step;
    }
  }

  /** Offset `k * step` is below `n` exactly when `k` indexes a value of `range(0, n, step)`. */
  lemma WindowIndexBound(n: nat, step: nat, k: nat)
    requires step > 0
    ensures k < |Range(0, n, step)| <==> k * step < n
  {
    RangeLength(0, n, step);
    var c := |Range(0, n, step)|;
    if k < c {
      if k < c - 1 { MulStrict(k, c - 1, step); }
    } else if c < k {
      MulStrict(c, k, step);
    }
  }

  /** There are ⌈n / step⌉ windows for `n` tokens; none for no tokens. */
  lemma WindowCount(ids: seq<int>, maxTokens: int, step: nat)
    requires step > 0
    ensures |Windows(ids, maxTokens, step)| == (|ids| + step - 1) / step
    ensures |ids| == 0 <==> Windows(ids, maxTokens, step) == []
  {
    RangeSteps(0, |ids|, step);
    RangeLength(0, |ids|, step);
    var c := |Windows(ids, maxTokens, step)|;
    if |ids| > 0 {
      DivUnique(|ids| + step - 1, step, c);
    } else {
      DivUnique(step - 1, step, 0);
    }
  }

  /** Window `k` starts at `s = k * step < n` and is `ids[s .. min(s + max_tokens, n))`:
      never empty and never longer than `max_tokens`. */
  lemma WindowAt(ids: seq<int>, maxTokens: int, step: nat, k: nat)
    requires step > 0 && maxTokens > 0
    requires k < |Windows(ids, maxTokens, step)|
    ensures var s := Range(0, |ids|, step)[k];
            s == k * step && s < |ids|
            && Windows(ids, maxTokens, step)[k] == ids[s .. Min(s + maxTokens, |ids|)]
            && 0 < |Windows(ids, maxTokens, step)[k]| <= maxTokens
  {
    RangeSteps(0, |ids|, step);
    RangeAt(0, |ids|, step, k);
  }

  /** Window start offsets strictly increase. */
  lemma WindowStartsIncrease(n: nat, step: nat)
    requires step > 0
    ensures var r := Range(0, n, step);
            forall k, l :: 0 <= k < l < |r| ==> r[k] < r[l]
  {
    var r := Range(0, n, step);
    forall k, l | 0 <= k < l < |r| ensures r[k] < r[l] {
      RangeAt(0, n, step, k);
      RangeAt(0, n, step, l);
      MulStrict(k, l, step);
    }
  }

  /** With `0 <= overlap`, every token lies in a window: token `j` is item
      `j % step` of window `j / step`. */
  lemma WindowsCover(ids: seq<int>, maxTokens: int, step: nat, j: nat)
    requires 0 < step <= maxTokens
    requires j < |ids|
    ensures var W := Windows(ids, maxTokens, step);
            j / step < |W| && j % step < |W[j / step]| && W[j / step][j % step] == ids[j]
  {
    var k := j / step;
    assert k * step + j % step == j;
    WindowIndexBound(|ids|, step, k);
    WindowAt(ids, maxTokens, step, k);
  }

  /** A full window `k` and window `k + 1` share exactly `overlap` tokens: the
      last `overlap` tokens of the one are the first `overlap` of the other. */
  lemma WindowsOverlap(ids: seq<int>, maxTokens: int, overlap: int, k: nat)
    requires 0 <= overlap < maxTokens
    requires k + 1 < |Windows(ids, maxTokens, maxTokens - overlap)|
    requires |Windows(ids, maxTokens, maxTokens - overlap)[k]| == maxTokens
    ensures var W := Windows(ids, maxTokens, maxTokens - overlap);
            |W[k + 1]| >= overlap && W[k][maxTokens - overlap..] == W[k + 1][..overlap]
  {
    var step := maxTokens - overlap;
    WindowAt(ids, maxTokens, step, k);
    WindowAt(ids, maxTokens, step, k + 1);
    assert (k + 1) * step == k * step + step;
    SlicesOverlap(ids, k * step, step, maxTokens);
  }

  /** Two slices of length up to `len` whose starts are `step` apart share
      `len - step` items when the first one is full. */
  lemma SlicesOverlap(ids: seq<int>, a: nat, step: nat, len: nat)
    requires 0 < step <= len && a + len <= |ids|
    ensures var w1 := ids[a + step..Min(a + step + len, |ids|)];
            |w1| >= len - step && ids[a..a + len][step..] == w1[..len - step]
  {
  }

  /** Once a window reaches the last token, the next window is a tail of it:
      the code emits one chunk per start offset below `n`, whether or not the
      tokens are already covered. */
  lemma WindowsAfterEndRepeat(ids: seq<int>, maxTokens: int, overlap: int, k: nat)
    requires 0 <= overlap < maxTokens
    requires k + 1 < |Windows(ids, maxTokens, maxTokens - overlap)|
    requires Range(0, |ids|, maxTokens - overlap)[k] + maxTokens >= |ids|
    ensures var W := Windows(ids, maxTokens, maxTokens - overlap);
            |W[k]| > maxTokens - overlap && W[k + 1] == W[k][maxTokens - overlap..]
  {
    var step := maxTokens - overlap;
    var n := |ids|;
    var W := Windows(ids, maxTokens, step);
    var r := Range(0, n, step);
    RangeSteps(0, n, step);
    var a := r[k];
    assert r[k + 1] == a + step;
    assert W[k] == ids[a..n];
    assert W[k + 1] == ids[a + step..n];
  }

  /** There is exactly one window, the whole token list, exactly when
      0 < n <= step (not whenever n <= max_tokens). */
  lemma OneWindow(ids: seq<int>, maxTokens: int, overlap: int)
    requires 0 <= overlap < maxTokens
    ensures |Windows(ids, maxTokens, maxTokens - overlap)| == 1 <==> 0 < |ids| <= maxTokens - overlap
    ensures 0 < |ids| <= maxTokens - overlap ==> Windows(ids, maxTokens, maxTokens - overlap) == [ids]
  {
    var step := maxTokens - overlap;
    RangeSteps(0, |ids|, step);
    RangeLength(0, |ids|, step);
    if 0 < |ids| <= step {
      assert ids[0..|ids|] == ids;
    }
  }

  /** 380 tokens with the defaults max_tokens = 400, overlap = 50: the code emits
      two chunks, tokens [0, 380) and [350, 380). The input is shorter than
      max_tokens yet gives two chunks, the first of them shorter than max_tokens
      though it is not the last, and the second repeats the first one's tail. */
  lemma ShortInputTwoWindows(ids: seq<int>)
    requires |ids| == 380
    ensures Windows(ids, 400, 350) == [ids, ids[350..]]
  {
    RangeSteps(0, 380, 350);
    RangeSteps(350, 380, 350);
    assert Range(0, 380, 350) == [0, 350];
    assert ids[0..380] == ids;
  }

  /** 1000 tokens with max_tokens = 400, overlap = 50: three chunks, tokens
      [0, 400), [350, 750) and [700, 1000). */
  lemma ThousandTokensThreeWindows(ids: seq<int>)
    requires |ids| == 1000
    ensures Windows(ids, 400, 350) == [ids[0..400], ids[350..750], ids[700..1000]]
  {
    assert Range(700, 1000, 350) == [700];
    assert Range(350, 1000, 350) == [350, 700];
    assert Range(0, 1000, 350) == [0, 350, 700];
  }

  // ---------------------------------------------------------------------------
  // Corrected chunker: stop after the first window that reaches the end

  /** The start offsets of `range(0, n, step)` up to and including the first
      whose window `[i, i + max_tokens)` reaches `n`. */
  function StartsToEnd(i: nat, n: nat, maxTokens: nat, step: nat): seq<nat>
    requires step > 0
    decreases if i < n then n - i else 0
  {
    if i >= n then []
    else if i + maxTokens >= n then [i]
    else [i] + StartsToEnd(i + step, n, maxTokens, step)
  }

  function WindowsToEnd(ids: seq<int>, maxTokens: nat, step: nat): seq<seq<int>>
    requires step > 0
  {
    var starts := StartsToEnd(0, |ids|, maxTokens, step);
    seq(|starts|, k requires 0 <= k < |starts| => PySlice(ids, starts[k], starts[k] + maxTokens))
  }

  /** `token_chunks` with the loop left after the first window that reaches the
      last token; the configuration is checked first. */
  method TokenChunksToEnd(text: string, encode: string -> seq<int>, decode: seq<int> -> string,
                          maxTokens: int, overlap: int)
    returns (chunks: Result<seq<string>, ChunkError>)
    ensures !(0 <= overlap < maxTokens) ==> chunks == Err(InvalidConfiguration)
    ensures 0 <= overlap < maxTokens ==>
              chunks == Ok(DecodeAll(decode, WindowsToEnd(encode(text), maxTokens, maxTokens - overlap)))
  {
    if !(0 <= overlap < maxTokens) {
      return Err(InvalidConfiguration);
    }
    var ids := encode(text);
    var step := maxTokens - overlap;
    var out: seq<string> := [];
    ghost var starts: seq<nat> := [];
    var i: nat := 0;
    var reachedEnd := false;
    while i < |ids| && !reachedEnd
      invariant !reachedEnd ==> StartsToEnd(0, |ids|, maxTokens, step) == starts + StartsToEnd(i, |ids|, maxTokens, step)
      invariant reachedEnd ==> StartsToEnd(0, |ids|, maxTokens, step) == starts
      invariant |out| == |starts|
      invariant forall k :: 0 <= k < |out| ==> out[k] == decode(PySlice(ids, starts[k], starts[k] + maxTokens))
      decreases |ids| - i, !reachedEnd
    {
      out := out + [decode(PySlice(ids, i, i + maxTokens))];
      StartsToEndStep(starts, i, |ids|, maxTokens, step);
      starts := starts + [i];
      if i + maxTokens >= |ids| {
        reachedEnd := true;
      } else {
        i := i + step;
      }
    }
    if !reachedEnd {
      assert StartsToEnd(i, |ids|, maxTokens, step) == [];
    }
    DecodeWindowsToEnd(decode, ids, maxTokens, step, starts, out);
    return Ok(out);
  }

  lemma StartsToEndStep(starts: seq<nat>, i: nat, n: nat, maxTokens: nat, step: nat)
    requires step > 0 && i < n
    requires StartsToEnd(0, n, maxTokens, step) == starts + StartsToEnd(i, n, maxTokens, step)
    ensures i + maxTokens >= n ==> StartsToEnd(0, n, maxTokens, step) == starts + [i]
    ensures i + maxTokens < n ==>
              StartsToEnd(0, n, maxTokens, step) == (starts + [i]) + StartsToEnd(i + step, n, maxTokens, step)
  {
    if i + maxTokens < n {
      assert starts + ([i] + StartsToEnd(i + step, n, maxTokens, step))
             == (starts + [i]) + StartsToEnd(i + step, n, maxTokens, step);
    }
  }

  lemma DecodeWindowsToEnd(decode: seq<int> -> string, ids: seq<int>, maxTokens: nat, step: nat,
                           starts: seq<nat>, out: seq<string>)
    requires step > 0 && starts == StartsToEnd(0, |ids|, maxTokens, step) && |out| == |starts|
    requires forall k :: 0 <= k < |out| ==> out[k] == decode(PySlice(ids, starts[k], starts[k] + maxTokens))
    ensures out == DecodeAll(decode, WindowsToEnd(ids, maxTokens, step))
  {
    var W := WindowsToEnd(ids, maxTokens, step);
    assert |W| == |out|;
    assert forall k :: 0 <= k < |out| ==> out[k] == decode(W[k]);
  }

  lemma StartsToEndSteps(i: nat, n: nat, maxTokens: nat, step: nat)
    requires 0 < step <= maxTokens
    ensures var r := StartsToEnd(i, n, maxTokens, step);
            (r != [] <==> i < n)
            && (r != [] ==> r[0] == i && r[|r| - 1] < n <= r[|r| - 1] + maxTokens)
            && (forall k :: 0 <= k < |r| ==> i <= r[k] < n)
            && (forall k :: 0 <= k < |r| - 1 ==> r[k + 1] == r[k] + step && r[k] + maxTokens < n)
  {
    StartsToEndBounds(i, n, maxTokens, step);
    StartsToEndGaps(i, n, maxTokens, step);
  }

  /** The corrected starts lie in `[i, n)`, begin at `i`, and the last one's
      window reaches `n`. */
  lemma {:induction false} StartsToEndBounds(i: nat, n: nat, maxTokens: nat, step: nat)
    requires 0 < step <= maxTokens
    ensures StartsToEnd(i, n, maxTokens, step) != [] <==> i < n
    ensures StartsToEnd(i, n, maxTokens, step) != [] ==>
              StartsToEnd(i, n, maxTokens, step)[0] == i
              && StartsToEnd(i, n, maxTokens, step)[|StartsToEnd(i, n, maxTokens, step)| - 1] < n
              && n <= StartsToEnd(i, n, maxTokens, step)[|StartsToEnd(i, n, maxTokens, step)| - 1] + maxTokens
    ensures forall k :: 0 <= k < |StartsToEnd(i, n, maxTokens, step)| ==>
              i <= StartsToEnd(i, n, maxTokens, step)[k] < n
    decreases if i < n then n - i else 0
  {
    if i < n && i + maxTokens < n {
      StartsToEndBounds(i + step, n, maxTokens, step);
      var r := StartsToEnd(i, n, maxTokens, step);
      var rest := StartsToEnd(i + step, n, maxTokens, step);
      assert r == [i] + rest;
      assert r[|r| - 1] == rest[|rest| - 1];
      forall k | 0 <= k < |r| ensures i <= r[k] < n {
        if k > 0 {
          assert r[k] == rest[k - 1];
        }
      }
    }
  }

  /** Consecutive corrected starts are `step` apart, and every window but the
      last ends before `n`. */
  lemma {:induction false} StartsToEndGaps(i: nat, n: nat, maxTokens: nat, step: nat)
    requires 0 < step <= maxTokens
    ensures forall k :: 0 <= k < |StartsToEnd(i, n, maxTokens, step)| - 1 ==>
              StartsToEnd(i, n, maxTokens, step)[k + 1] == StartsToEnd(i, n, maxTokens, step)[k] + step
              && StartsToEnd(i, n, maxTokens, step)[k] + maxTokens < n
    decreases if i < n then n - i else 0
  {
    if i < n && i + maxTokens < n {
      StartsToEndGaps(i + step, n, maxTokens, step);
      var r := StartsToEnd(i, n, maxTokens, step);
      var rest := StartsToEnd(i + step, n, maxTokens, step);
      assert r == [i] + rest;
      assert rest != [] && rest[0] == i + step;
      forall k | 0 <= k < |r| - 1 ensures r[k + 1] == r[k] + step && r[k] + maxTokens < n {
        assert r[k + 1] == rest[k];
        if k > 0 {
          assert r[k] == rest[k - 1];
        }
      }
    }
  }

  /** The corrected start offsets are a prefix of `range(i, n, step)`. */
  lemma {:induction false} StartsToEndPrefix(i: nat, n: nat, maxTokens: nat, step: nat)
    requires step > 0
    ensures var r := StartsToEnd(i, n, maxTokens, step);
            |r| <= |Range(i, n, step)| && r == Range(i, n, step)[..|r|]
    decreases if i < n then n - i else 0
  {
    if i < n && i + maxTokens < n {
      StartsToEndPrefix(i + step, n, maxTokens, step);
    }
  }

  /** The corrected chunker only drops windows: its windows are the first
      windows the code emits. */
  lemma WindowsToEndPrefix(ids: seq<int>, maxTokens: nat, step: nat)
    requires step > 0
    ensures var C := WindowsToEnd(ids, maxTokens, step);
            |C| <= |Windows(ids, maxTokens, step)| && C == Windows(ids, maxTokens, step)[..|C|]
  {
    StartsToEndPrefix(0, |ids|, maxTokens, step);
  }

  /** Corrected window `k` starts at `r[k] = k * step` and is `ids[r[k] .. min(r[k] + max_tokens, n))`. */
  lemma WindowToEndAt(ids: seq<int>, maxTokens: int, overlap: int, k: nat)
    requires 0 <= overlap < maxTokens
    requires k < |WindowsToEnd(ids, maxTokens, maxTokens - overlap)|
    ensures var step := maxTokens - overlap; var r := StartsToEnd(0, |ids|, maxTokens, step);
            k < |r| && r[k] == k * step && r[k] < |ids|
            && WindowsToEnd(ids, maxTokens, step)[k] == ids[r[k]..Min(r[k] + maxTokens, |ids|)]
  {
    var step := maxTokens - overlap;
    StartsToEndSteps(0, |ids|, maxTokens, step);
    StartsToEndPrefix(0, |ids|, maxTokens, step);
    RangeAt(0, |ids|, step, k);
  }

  /** The corrected windows: none for no tokens, and the whole list when it fits
      in `max_tokens`. */
  lemma WindowsToEndSmall(ids: seq<int>, maxTokens: int, overlap: int)
    requires 0 <= overlap < maxTokens
    ensures var W := WindowsToEnd(ids, maxTokens, maxTokens - overlap);
            (W == [] <==> |ids| == 0) && (0 < |ids| <= maxTokens ==> W == [ids])
  {
    var step := maxTokens - overlap;
    StartsToEndSteps(0, |ids|, maxTokens, step);
    if 0 < |ids| <= maxTokens {
      assert ids[0..|ids|] == ids;
    }
  }

  /** Every corrected window but the last is exactly `max_tokens` long, and the
      last one ends at the last token. */
  lemma WindowsToEndLengths(ids: seq<int>, maxTokens: int, overlap: int)
    requires 0 <= overlap < maxTokens
    ensures var step := maxTokens - overlap; var n := |ids|;
            var W := WindowsToEnd(ids, maxTokens, step); var r := StartsToEnd(0, n, maxTokens, step);
            |r| == |W|
            && (forall k :: 0 <= k < |W| - 1 ==> r[k] + maxTokens < n && W[k] == ids[r[k]..r[k] + maxTokens])
            && (W != [] ==> r[|W| - 1] < n && W[|W| - 1] == ids[r[|W| - 1]..])
  {
    StartsToEndSteps(0, |ids|, maxTokens, maxTokens - overlap);
  }

  /** Consecutive corrected windows share exactly `overlap` tokens. */
  lemma WindowsToEndOverlap(ids: seq<int>, maxTokens: int, overlap: int, k: nat)
    requires 0 <= overlap < maxTokens
    requires 0 < k < |WindowsToEnd(ids, maxTokens, maxTokens - overlap)|
    ensures var step := maxTokens - overlap; var W := WindowsToEnd(ids, maxTokens, step);
            |W[k - 1]| >= step && |W[k]| >= overlap && W[k - 1][step..] == W[k][..overlap]
  {
    var step := maxTokens - overlap;
    var n := |ids|;
    var W := WindowsToEnd(ids, maxTokens, step);
    StartsToEndSteps(0, n, maxTokens, step);
    var r := StartsToEnd(0, n, maxTokens, step);
    var a := r[k - 1];
    assert r[k] == a + step && a + maxTokens < n;
    assert W[k - 1] == ids[a..a + maxTokens];
    assert W[k] == ids[a + step..Min(a + step + maxTokens, n)];
    SlicesOverlap(ids, a, step, maxTokens);
  }

  /** Every token lies in one of the corrected windows: token `j` is in window
      `j / step`, or in the last window when there are fewer windows. */
  lemma WindowsToEndCover(ids: seq<int>, maxTokens: int, overlap: int, j: nat)
    requires 0 <= overlap < maxTokens
    requires j < |ids|
    ensures var step := maxTokens - overlap;
            var W := WindowsToEnd(ids, maxTokens, step); var r := StartsToEnd(0, |ids|, maxTokens, step);
            var k := if j / step < |W| then j / step else |W| - 1;
            0 <= k < |W| == |r| && r[k] <= j && j - r[k] < |W[k]| && W[k][j - r[k]] == ids[j]
  {
    var step := maxTokens - overlap;
    var n := |ids|;
    var W := WindowsToEnd(ids, maxTokens, step);
    var r := StartsToEnd(0, n, maxTokens, step);
    StartsToEndBounds(0, n, maxTokens, step);
    var q := j / step;
    assert q * step + j % step == j;
    if q < |W| {
      WindowToEndAt(ids, maxTokens, overlap, q);
      CoverAt(ids, r[q], maxTokens, j);
    } else {
      var k := |W| - 1;
      WindowToEndAt(ids, maxTokens, overlap, k);
      MulStrict(k, q, step);
      CoverAt(ids, r[k], maxTokens, j);
    }
  }

  /** Token `j` is item `j - a` of the slice `ids[a .. min(a + len, n))` when
      `a <= j < a + len`. */
  lemma CoverAt(ids: seq<int>, a: nat, len: int, j: nat)
    requires a <= j < |ids| && j < a + len
    ensures j - a < |ids[a..Min(a + len, |ids|)]| && ids[a..Min(a + len, |ids|)][j - a] == ids[j]
  {
  }

}
