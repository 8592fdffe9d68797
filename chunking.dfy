/**
 * The second loop of the load handler in src/Home.js: the flat pattern list
 * is cut into lines of `perLine` entries with `slice`, so the last line holds
 * whatever is left over.
 */
module Chunking {

  function Min(a: int, b: int): int
  {
    if a <= b then a else b
  }

  function Max(a: int, b: int): int
  {
    if a <= b then b else a
  }

  /** Where a `slice` bound lands: a negative one counts from the end; both are clamped to the list. */
  function SliceBound(bound: int, length: nat): (k: nat)
    ensures k <= length
  {
    if bound < 0 then Max(length + bound, 0) else Min(bound, length)
  }

  /** Array.prototype.slice on integer bounds. */
  function Slice<T>(s: seq<T>, start: int, end: int): (r: seq<T>)
    ensures 0 <= start <= end ==> r == s[Min(start, |s|)..Min(end, |s|)]
  {
    var from, to := SliceBound(start, |s|), SliceBound(end, |s|);
    if from < to then s[from..to] else []
  }

  /** The lines of `s`, each of `perLine` entries except possibly the last. */
  function Lines<T>(s: seq<T>, perLine: nat): (lines: seq<seq<T>>)
    requires perLine > 0
    ensures Flatten(lines) == s
    decreases |s|
  {
    if |s| == 0 then []
    else if |s| <= perLine then
      FlattenCons(s, []);
      assert s + [] == s;
      [s]
    else
      var rest := Lines(s[perLine..], perLine);
      FlattenCons(s[..perLine], rest);
      assert s[..perLine] + s[perLine..] == s;
      [s[..perLine]] + rest
  }

  /** The lines laid end to end. */
  function Flatten<T>(lines: seq<seq<T>>): seq<T>
  {
    if |lines| == 0 then [] else lines[0] + Flatten(lines[1..])
  }

  lemma FlattenCons<T>(head: seq<T>, rest: seq<seq<T>>)
    ensures Flatten([head] + rest) == head + Flatten(rest)
  {
    assert ([head] + rest)[1..] == rest;
  }

  /**
   * Every line but the last is full, the last is not empty, and the number of
   * lines is the least count whose full lines would cover the list.
   */
  lemma {:induction false} LinesShape<T>(s: seq<T>, perLine: nat)
    requires perLine > 0
    ensures var lines := Lines(s, perLine);
            && |s| <= |lines| * perLine < |s| + perLine
            && (forall j :: 0 <= j < |lines| - 1 ==> |lines[j]| == perLine)
            && (|lines| > 0 ==> 0 < |lines[|lines| - 1]| <= perLine)
    decreases |s|
  {
    if |s| > perLine {
      LinesShape(s[perLine..], perLine);
      var lines, rest := Lines(s, perLine), Lines(s[perLine..], perLine);
      assert lines == [s[..perLine]] + rest;
      var count := |rest|;
      assert |lines| == count + 1;
      assert |s| - perLine <= count * perLine < |s|;
      assert (count + 1) * perLine == count * perLine + perLine;
      forall j | 0 <= j < |lines| - 1
        ensures |lines[j]| == perLine
      {
        if j > 0 {
          assert lines[j] == rest[j - 1];
        }
      }
    }
  }

  /** A positive multiple of d is at least d. */
  lemma MultipleAtLeast(k: int, d: int)
    requires k >= 1 && d > 0
    ensures k * d >= d
  {
  }

  /** An integer quotient is the only q with q * d <= x < q * d + d. */
  lemma DivUnique(x: int, d: int, q: int)
    requires d > 0
    requires q * d <= x < q * d + d
    ensures x / d == q
  {
    var r := x / d;
    assert r * d <= x < r * d + d;
    assert (q - r) * d == q * d - r * d;
    if q > r {
      MultipleAtLeast(q - r, d);
    } else if q < r {
      MultipleAtLeast(r - q, d);
    }
  }

  /** The number of lines is ceil(|s| / perLine). */
  lemma LinesCount<T>(s: seq<T>, perLine: nat)
    requires perLine > 0
    ensures |Lines(s, perLine)| == (|s| + perLine - 1) / perLine
  {
    LinesShape(s, perLine);
    var count := |Lines(s, perLine)|;
    DivUnique(|s| + perLine - 1, perLine, count);
  }

  /** Line j is the slice of `s` from j * perLine, clamped at the end. */
  lemma {:induction false} LinesAt<T>(s: seq<T>, perLine: nat, j: nat)
    requires perLine > 0
    requires j < |Lines(s, perLine)|
    ensures j * perLine < |s|
    ensures Lines(s, perLine)[j] == s[j * perLine .. Min(j * perLine + perLine, |s|)]
    decreases |s|
  {
    if j > 0 {
      var rest := s[perLine..];
      assert |s| > perLine;
      assert Lines(s, perLine) == [s[..perLine]] + Lines(rest, perLine);
      assert Lines(s, perLine)[j] == Lines(rest, perLine)[j - 1];
      LinesAt(rest, perLine, j - 1);
      assert (j - 1) * perLine + perLine == j * perLine;
      assert rest[(j - 1) * perLine .. Min(j * perLine, |rest|)]
          == s[j * perLine .. Min(j * perLine + perLine, |s|)];
    }
  }

  /**
   * A list of `perLine * height` entries makes exactly `height` lines, all of
   * them full.
   */
  lemma {:induction false} FullLines<T>(s: seq<T>, perLine: nat, height: nat)
    requires perLine > 0
    requires |s| == perLine * height
    ensures |Lines(s, perLine)| == height
    ensures forall j :: 0 <= j < height ==> |Lines(s, perLine)[j]| == perLine
    decreases height
  {
    if height == 0 {
      assert |s| == 0;
    } else if height == 1 {
      assert |s| == perLine;
    } else {
      assert perLine * height == perLine * (height - 1) + perLine;
      assert |s[perLine..]| == perLine * (height - 1);
      FullLines(s[perLine..], perLine, height - 1);
      var lines, rest := Lines(s, perLine), Lines(s[perLine..], perLine);
      assert lines == [s[..perLine]] + rest;
      forall j | 0 <= j < height
        ensures |lines[j]| == perLine
      {
        if j > 0 {
          assert lines[j] == rest[j - 1];
        }
      }
    }
  }

  /**
   * With a step that is not positive the loop of the load handler never
   * ends: after any number of rounds the index is still below the length of
   * a non-empty list. Every slice pushed after the first is empty (the first,
   * `slice(0, step)`, is all but the last -step entries).
   */
  lemma NonPositiveStepNeverEnds<T>(s: seq<T>, step: int, rounds: nat)
    requires step <= 0 && |s| > 0
    ensures rounds * step < |s|
    ensures rounds > 0 || step == 0 ==> Slice(s, rounds * step, rounds * step + step) == []
  {
    MultipleNotPositive(rounds, step);
    if rounds > 0 && step < 0 {
      MultipleNotPositive(rounds - 1, step);
      assert rounds * step == (rounds - 1) * step + step;
    }
  }

  /** A non-negative number of non-positive steps is not positive. */
  lemma MultipleNotPositive(count: nat, step: int)
    requires step <= 0
    ensures count * step <= 0
  {
  }

  /** The line starting at position i is the slice of perLine entries from there. */
  lemma LinesStep<T>(s: seq<T>, i: nat, perLine: nat)
    requires perLine > 0 && i < |s|
    ensures Lines(s[i..], perLine) == [Slice(s, i, i + perLine)] + Lines(s[Min(i + perLine, |s|)..], perLine)
  {
    var rest, line := s[i..], Slice(s, i, i + perLine);
    if |rest| > perLine {
      assert rest[..perLine] == line;
      assert rest[perLine..] == s[Min(i + perLine, |s|)..];
    } else {
      assert rest == line;
      assert s[Min(i + perLine, |s|)..] == [];
    }
  }

  /**
   * The loop of the load handler: step through the list `perLine` at a time
   * and push each slice; `slice` clamps its end to the length of the list.
   */
  method ChunkLines<T>(s: seq<T>, perLine: nat) returns (lines: seq<seq<T>>)
    requires perLine > 0
    ensures lines == Lines(s, perLine)
  {
    lines := [];
    var i := 0;
    while i < |s|
      invariant 0 <= i
      invariant lines + Lines(s[Min(i, |s|)..], perLine) == Lines(s, perLine)
    {
      var line := Slice(s, i, i + perLine);
      LinesStep(s, i, perLine);
      lines := lines + [line];
      i := i + perLine;
    }
    assert s[Min(i, |s|)..] == [];
  }
}
