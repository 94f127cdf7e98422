/** What every bulletin query shares: the window half-width, line access
    to a bulletin file, the numeric casts, and the lines a window reads. */
module Bulletin {
  import opened Php

  /** `INTERP_C`: rows taken on each side of the pointer. */
  const INTERP_C: int := 5

  /** PHP's `(float)` and `(int)` casts of a field's text. Decimal parsing
      and IEEE rounding are outside the model, so a query takes them as
      given. */
  datatype Numeric = Numeric(toReal: string -> real, toInt: string -> int)

  /** Line `i` of a bulletin file held as its sequence of lines; a line
      outside the file reads as empty. */
  function Line(lines: seq<string>, i: int): (s: string)
    ensures 0 <= i < |lines| ==> s == lines[i]
    ensures !(0 <= i < |lines|) ==> s == ""
  {
    if 0 <= i < |lines| then lines[i] else ""
  }

  /** `count(file(...)) - 1`: the index of the last line. */
  function MaxLine(lines: seq<string>): int {
    |lines| - 1
  }

  /** The line `seek` reaches in iteration `k` of a window loop that runs
      `i` from `p - INTERP_C` while `i < p + INTERP_C`; a float `i` is
      truncated. */
  function WindowLine(p: real, k: int): int {
    TruncReal(p - INTERP_C as real + k as real)
  }

  /** The `2 * INTERP_C` lines read by a window centred on `p`, in order:
      entry `k` becomes dataset row `k`, the key `i - p + INTERP_C`. */
  function WindowLines(lines: seq<string>, p: real): (ws: seq<string>)
    ensures |ws| == 2 * INTERP_C
    ensures forall k :: 0 <= k < 2 * INTERP_C ==> ws[k] == Line(lines, WindowLine(p, k))
    ensures p >= INTERP_C as real ==>
              forall k :: 0 <= k < 2 * INTERP_C ==> ws[k] == Line(lines, p.Floor - INTERP_C + k)
  {
    var ws := seq(2 * INTERP_C, k requires 0 <= k < 2 * INTERP_C => Line(lines, WindowLine(p, k)));
    assert p >= INTERP_C as real ==>
             forall k :: 0 <= k < 2 * INTERP_C ==> WindowLine(p, k) == p.Floor - INTERP_C + k by {
      if p >= INTERP_C as real {
        forall k | 0 <= k < 2 * INTERP_C
          ensures WindowLine(p, k) == p.Floor - INTERP_C + k
        {
          FloorShift(p, k - INTERP_C);
        }
      }
    }
    ws
  }

  /** Adding a whole number moves the floor by that number. */
  lemma FloorShift(x: real, c: int)
    ensures (x + c as real).Floor == x.Floor + c
  {
  }

  /** A window centred at or beyond `INTERP_C` reads no negative line, and
      one whose last line `p + INTERP_C - 1` lies inside the file reads
      every line from the file. */
  lemma WindowInside(lines: seq<string>, p: real, k: int)
    requires p >= INTERP_C as real && 0 <= k < 2 * INTERP_C
    requires p + INTERP_C as real <= MaxLine(lines) as real
    ensures 0 <= WindowLine(p, k) < MaxLine(lines)
    ensures WindowLines(lines, p)[k] == lines[WindowLine(p, k)]
  {
  }
}
