/**
 * RangeToString: renders a sequence as "[a, b, c]", each element written by the
 * element type's stream output operator (here the parameter `toStr`).
 */
module RangeFormat {

  /** The elements' renderings joined by ", " (no separator before the first or after the last). */
  function Joined<T>(range: seq<T>, toStr: T -> string): string
    decreases |range|
  {
    if range == [] then ""
    else if |range| == 1 then toStr(range[0])
    else toStr(range[0]) + ", " + Joined(range[1..], toStr)
  }

  /** The text RangeToString produces: the joined elements between square brackets. */
  function Render<T>(range: seq<T>, toStr: T -> string): string {
    "[" + Joined(range, toStr) + "]"
  }

  /** Total length of the elements' renderings. */
  function RenderedLength<T>(range: seq<T>, toStr: T -> string): nat
    decreases |range|
  {
    if range == [] then 0 else |toStr(range[0])| + RenderedLength(range[1..], toStr)
  }

  /** Appending one element adds a separator (unless it is the first) and its rendering. */
  lemma {:induction false} JoinedSnoc<T>(range: seq<T>, x: T, toStr: T -> string)
    ensures Joined(range + [x], toStr)
         == Joined(range, toStr) + (if range == [] then "" else ", ") + toStr(x)
    decreases |range|
  {
    if |range| == 1 {
      assert range + [x] == [range[0], x];
      assert (range + [x])[1..] == [x];
    } else if |range| > 1 {
      assert (range + [x])[1..] == range[1..] + [x];
      JoinedSnoc(range[1..], x, toStr);
    }
  }

  /**
   * The stream-based loop: '[' first, then each element, preceded by ", " unless it
   * is the first one, then ']'.
   */
  method RangeToString<T>(range: seq<T>, toStr: T -> string) returns (s: string)
    ensures s == Render(range, toStr)
  {
    s := "[";
    var i := 0;
    while i < |range|
      invariant 0 <= i <= |range|
      invariant s == "[" + Joined(range[..i], toStr)
    {
      if i != 0 {
        s := s + ", ";
      }
      s := s + toStr(range[i]);
      JoinedSnoc(range[..i], range[i], toStr);
      assert range[..i + 1] == range[..i] + [range[i]];
      i := i + 1;
    }
    assert range[..i] == range;
    s := s + "]";
  }

  /** The output always opens with '[' and closes with ']'. */
  lemma RenderBracketed<T>(range: seq<T>, toStr: T -> string)
    ensures |Render(range, toStr)| >= 2
    ensures Render(range, toStr)[0] == '['
    ensures Render(range, toStr)[|Render(range, toStr)| - 1] == ']'
  {
  }

  /** An empty range renders as "[]". */
  lemma RenderEmpty<T>(toStr: T -> string)
    ensures Render([], toStr) == "[]"
  {
  }

  /** A single element renders as its own text between brackets. */
  lemma RenderSingle<T>(e: T, toStr: T -> string)
    ensures Render([e], toStr) == "[" + toStr(e) + "]"
  {
  }

  /** Joining two non-empty ranges puts exactly one ", " between their joined texts. */
  lemma {:induction false} JoinedConcat<T>(xs: seq<T>, ys: seq<T>, toStr: T -> string)
    requires xs != [] && ys != []
    ensures Joined(xs + ys, toStr) == Joined(xs, toStr) + ", " + Joined(ys, toStr)
    decreases |xs|
  {
    if |xs| == 1 {
      assert (xs + ys)[1..] == ys;
    } else {
      assert (xs + ys)[1..] == xs[1..] + ys;
      JoinedConcat(xs[1..], ys, toStr);
    }
  }

  /**
   * Concatenating two non-empty ranges renders as the first range's output without
   * its ']', exactly one ", ", and the second range's output without its '['.
   */
  lemma RenderConcat<T>(xs: seq<T>, ys: seq<T>, toStr: T -> string)
    requires xs != [] && ys != []
    ensures Render(xs + ys, toStr)
         == Render(xs, toStr)[..|Render(xs, toStr)| - 1] + ", " + Render(ys, toStr)[1..]
  {
    JoinedConcat(xs, ys, toStr);
    var jx, jy := Joined(xs, toStr), Joined(ys, toStr);
    var rx, ry := Render(xs, toStr), Render(ys, toStr);
    assert rx[..|rx| - 1] == "[" + jx;
    assert ry[1..] == jy + "]";
  }

  /** For n >= 1 elements the output is 2 + (sum of element lengths) + 2 * (n - 1) characters long. */
  lemma {:induction false} RenderLength<T>(range: seq<T>, toStr: T -> string)
    requires range != []
    ensures |Render(range, toStr)| == 2 + RenderedLength(range, toStr) + 2 * (|range| - 1)
    decreases |range|
  {
    if |range| > 1 {
      RenderLength(range[1..], toStr);
    }
  }
}
