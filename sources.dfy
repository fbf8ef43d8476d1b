/** SourceCutter and SourceComposer: two adaptors over image sources. A
 *  source is modelled by the elements its iterator yields, in order, each
 *  with the row and column the inner iterator reports for it; an inner
 *  iterator is a position in that sequence, its end the length. */
module Sources {

  /** One element of a source, with the position its iterator reports. */
  datatype Item<T> = Item(row: nat, col: nat, value: T)

  /** A source with its getRows/getCols and its elements in iteration
   *  order. */
  datatype Source<T> = Source(rows: nat, cols: nat, items: seq<Item<T>>)

  // ----- SourceCutter -----

  /** The window a cutter keeps: rows [ys, ys+height), columns
   *  [xs, xs+width). */
  datatype Window = Window(ys: nat, xs: nat, height: nat, width: nat)

  predicate Inside<T>(w: Window, e: Item<T>)
  {
    w.ys <= e.row < w.ys + w.height && w.xs <= e.col < w.xs + w.width
  }

  /** The first position at or after i holding an element inside the
   *  window, or the end. */
  function NextInside<T>(items: seq<Item<T>>, w: Window, i: nat): (r: nat)
    requires i <= |items|
    ensures i <= r <= |items|
    ensures r < |items| ==> Inside(w, items[r])
    ensures forall t :: i <= t < r ==> !Inside(w, items[t])
    decreases |items| - i
  {
    if i == |items| then i
    else if Inside(w, items[i]) then i
    else NextInside(items, w, i + 1)
  }

  /** The elements inside the window, in source order. */
  function InsideOnly<T>(items: seq<Item<T>>, w: Window): seq<Item<T>>
  {
    if items == [] then []
    else (if Inside(w, items[0]) then [items[0]] else []) + InsideOnly(items[1..], w)
  }

  /** A cutter iterator at i rests on an element inside the window, or on
   *  the end. */
  predicate Resting<T>(items: seq<Item<T>>, w: Window, i: nat)
  {
    i <= |items| && (i < |items| ==> Inside(w, items[i]))
  }

  /** What a cutter iterator resting at i yields before it reaches the
   *  end, one `++` per element. */
  function Remaining<T>(items: seq<Item<T>>, w: Window, i: nat): seq<Item<T>>
    requires Resting(items, w, i)
    decreases |items| - i
  {
    if i == |items| then [] else [items[i]] + Remaining(items, w, NextInside(items, w, i + 1))
  }

  /** Started at the first inside element, the cutter yields exactly the
   *  window's elements, in the inner source's order. */
  lemma {:induction false} CutterYieldsWindow<T>(items: seq<Item<T>>, w: Window, i: nat)
    requires i <= |items|
    ensures Remaining(items, w, NextInside(items, w, i)) == InsideOnly(items[i..], w)
    decreases |items| - i
  {
    if i < |items| {
      CutterYieldsWindow(items, w, i + 1);
      assert items[i..][1..] == items[i + 1..];
      if Inside(w, items[i]) {
        assert NextInside(items, w, i) == i;
      } else {
        assert NextInside(items, w, i) == NextInside(items, w, i + 1);
      }
    }
  }

  /** From two resting positions, the earlier yields strictly more. */
  lemma {:induction false} RemainingShrinks<T>(items: seq<Item<T>>, w: Window, i: nat, j: nat)
    requires Resting(items, w, i) && Resting(items, w, j) && i <= j
    ensures |Remaining(items, w, i)| >= |Remaining(items, w, j)|
    ensures i < j ==> |Remaining(items, w, i)| > |Remaining(items, w, j)|
    decreases |items| - i
  {
    if i < j {
      var n := NextInside(items, w, i + 1);
      assert n <= j;
      RemainingShrinks(items, w, n, j);
    }
  }

  class SourceCutter<T> {
    const window: Window
    const source: seq<Item<T>>

    /** SourceCutter(source, startRow, startCol, height, width). */
    constructor (asource: seq<Item<T>>, startRow: nat, startCol: nat, height: nat, width: nat)
      ensures source == asource && window == Window(startRow, startCol, height, width)
    {
      source := asource;
      window := Window(startRow, startCol, height, width);
    }

    function GetRows(): (r: nat)
      reads this
      ensures r == window.height
    {
      window.height
    }

    function GetCols(): (r: nat)
      reads this
      ensures r == window.width
    {
      window.width
    }

    /** begin(): wraps the inner begin, moved to the first inside element. */
    method Begin() returns (it: CutterIterator<T>)
      ensures fresh(it) && it.items == source && it.window == window
      ensures it.pos == NextInside(source, window, 0) && it.Valid()
    {
      it := new CutterIterator(source, window, 0);
    }

    /** end(): wraps the inner end. */
    method End() returns (it: CutterIterator<T>)
      ensures fresh(it) && it.items == source && it.window == window
      ensures it.pos == |source| && it.Valid()
    {
      it := new CutterIterator(source, window, |source|);
    }
  }

  class CutterIterator<T> {
    const items: seq<Item<T>>
    const window: Window
    var pos: nat

    predicate Valid()
      reads this
    {
      Resting(items, window, pos)
    }

    /** The protected constructor: skips forward from ait while the inner
     *  element lies outside the window and the inner end is not reached. */
    constructor (source: seq<Item<T>>, w: Window, ait: nat)
      requires ait <= |source|
      ensures items == source && window == w
      ensures pos == NextInside(source, w, ait) && Valid()
    {
      var p := ait;
      while p != |source| && !Inside(w, source[p])
        invariant ait <= p <= |source|
        invariant NextInside(source, w, p) == NextInside(source, w, ait)
        decreases |source| - p
      {
        p := p + 1;
      }
      items, window, pos := source, w, p;
    }

    /** Prefix `++`: at the end nothing happens; otherwise one inner step,
     *  then more while outside the window and before the inner end. */
    method Increment()
      requires Valid()
      modifies this
      ensures Valid()
      ensures pos == if old(pos) == |items| then old(pos) else NextInside(items, window, old(pos) + 1)
      ensures old(pos) < |items| ==> Remaining(items, window, old(pos)) == [items[old(pos)]] + Remaining(items, window, pos)
    {
      if pos != |items| {
        ghost var start := pos + 1;
        pos := pos + 1;
        while (pos != |items| && !Inside(window, items[pos]))
          invariant start <= pos <= |items|
          invariant NextInside(items, window, pos) == NextInside(items, window, start)
          decreases |items| - pos
        {
          pos := pos + 1;
        }
      }
    }

    /** `*it`: the inner element's value. */
    function Deref(): (r: T)
      requires pos < |items|
      reads this
      ensures Valid() ==> Remaining(items, window, pos)[0].value == r && Inside(window, items[pos])
    {
      items[pos].value
    }

    /** getRow: the inner row relative to the window's first row; always
     *  inside the window's height. */
    function GetRow(): (r: nat)
      requires Valid() && pos < |items|
      reads this
      ensures r < window.height && r + window.ys == items[pos].row
    {
      items[pos].row - window.ys
    }

    /** getCol: the inner column relative to the window's first column. */
    function GetCol(): (r: nat)
      requires Valid() && pos < |items|
      reads this
      ensures r < window.width && r + window.xs == items[pos].col
    {
      items[pos].col - window.xs
    }

    /** `==`: the inner iterators are equal. Two resting iterators over the
     *  same cutter are equal exactly when they have the same elements
     *  left to yield. */
    function Equals(b: CutterIterator<T>): (r: bool)
      requires Valid() && b.Valid() && b.items == items && b.window == window
      reads this, b
      ensures r <==> Remaining(items, window, pos) == Remaining(items, window, b.pos)
    {
      if pos < b.pos then
        RemainingShrinks(items, window, pos, b.pos);
        false
      else if b.pos < pos then
        RemainingShrinks(items, window, b.pos, pos);
        false
      else
        true
    }
  }

  // ----- SourceComposer -----

  /** The elements of all sources, one source after the other. */
  function Flatten<T>(s: seq<Source<T>>): seq<Item<T>>
  {
    if s == [] then [] else s[0].items + Flatten(s[1..])
  }

  lemma {:induction false} FlattenSplit<T>(s: seq<Source<T>>, i: nat)
    requires i <= |s|
    ensures Flatten(s) == Flatten(s[..i]) + Flatten(s[i..])
  {
    if i > 0 {
      FlattenSplit(s[1..], i - 1);
      assert s[1..][..i - 1] == s[..i][1..];
      assert s[1..][i - 1..] == s[i..];
    } else {
      assert s[..0] == [] && s[0..] == s;
    }
  }

  /** The place in the concatenation of the element at position pos of
   *  source index. */
  function Ordinal<T>(s: seq<Source<T>>, index: nat, pos: nat): nat
    requires index <= |s|
  {
    |Flatten(s[..index])| + pos
  }

  predicate AllNonEmpty<T>(s: seq<Source<T>>)
  {
    forall i :: 0 <= i < |s| ==> |s[i].items| > 0
  }

  /** The element a composer iterator at (index, pos) reads is the one at
   *  its ordinal in the concatenation of the sources. */
  lemma ComposerReadsConcatenation<T>(s: seq<Source<T>>, index: nat, pos: nat)
    requires index < |s| && pos < |s[index].items|
    ensures Ordinal(s, index, pos) < |Flatten(s)|
    ensures Flatten(s)[Ordinal(s, index, pos)] == s[index].items[pos]
  {
    FlattenSplit(s, index);
    assert Flatten(s[index..]) == s[index].items + Flatten(s[index + 1..]) by {
      assert s[index..][1..] == s[index + 1..];
    }
  }

  /** end() is one past the last element of the concatenation. */
  lemma ComposerEndOrdinal<T>(s: seq<Source<T>>)
    requires |s| > 0
    ensures Ordinal(s, |s| - 1, |s[|s| - 1].items|) == |Flatten(s)|
  {
    FlattenSplit(s, |s| - 1);
    assert s[|s| - 1..] == [s[|s| - 1]];
    assert Flatten([s[|s| - 1]]) == s[|s| - 1].items + Flatten([s[|s| - 1]][1..]);
  }

  /** The start of the next source is the same place in the
   *  concatenation as the end of the current one. */
  lemma OrdinalNextSource<T>(s: seq<Source<T>>, index: nat)
    requires index + 1 <= |s|
    ensures Ordinal(s, index + 1, 0) == Ordinal(s, index, |s[index].items|)
  {
    FlattenSplit(s[..index + 1], index);
    assert s[..index + 1][..index] == s[..index];
    assert s[..index + 1][index..] == [s[index]];
    assert Flatten([s[index]]) == s[index].items + Flatten([s[index]][1..]);
  }

  /** Distinct positions that can be read, or the end, have distinct
   *  ordinals. */
  lemma OrdinalInjective<T>(s: seq<Source<T>>, i: nat, p: nat, j: nat, q: nat)
    requires i < |s| && j < |s| && p <= |s[i].items| && q <= |s[j].items|
    requires (p < |s[i].items| || i == |s| - 1) && (q < |s[j].items| || j == |s| - 1)
    requires Ordinal(s, i, p) == Ordinal(s, j, q)
    ensures i == j && p == q
  {
    if i < j {
      OrdinalMono(s, i + 1, j);
      OrdinalNextSource(s, i);
    } else if j < i {
      OrdinalMono(s, j + 1, i);
      OrdinalNextSource(s, j);
    }
  }

  lemma {:induction false} OrdinalMono<T>(s: seq<Source<T>>, i: nat, j: nat)
    requires i <= j <= |s|
    ensures Ordinal(s, i, 0) <= Ordinal(s, j, 0)
    decreases j - i
  {
    if i < j {
      OrdinalNextSource(s, i);
      OrdinalMono(s, i + 1, j);
    }
  }

  class SourceComposer<T> {
    const sources: seq<Source<T>>

    constructor (somesources: seq<Source<T>>)
      ensures sources == somesources
    {
      sources := somesources;
    }

    /** getRows and getCols come from the first source. */
    function GetRows(): (r: nat)
      requires |sources| > 0
      reads this
      ensures r == sources[0].rows
    {
      sources[0].rows
    }

    function GetCols(): (r: nat)
      requires |sources| > 0
      reads this
      ensures r == sources[0].cols
    {
      sources[0].cols
    }

    /** getSlices: one slice per source. */
    function GetSlices(): (r: nat)
      reads this
      ensures r == |sources|
    {
      |sources|
    }

    /** begin(): the first source's begin, slice 0. */
    method Begin() returns (it: ComposerIterator<T>)
      requires |sources| > 0
      ensures fresh(it) && it.sources == sources && it.index == 0 && it.pos == 0
      ensures Ordinal(sources, it.index, it.pos) == 0
    {
      it := new ComposerIterator(sources, 0, 0);
      assert sources[..0] == [];
    }

    /** end(): the last source's end, slice count − 1. */
    method End() returns (it: ComposerIterator<T>)
      requires |sources| > 0
      ensures fresh(it) && it.sources == sources
      ensures it.index == |sources| - 1 && it.pos == |sources[|sources| - 1].items|
      ensures Ordinal(sources, it.index, it.pos) == |Flatten(sources)|
    {
      it := new ComposerIterator(sources, |sources| - 1, |sources[|sources| - 1].items|);
      ComposerEndOrdinal(sources);
    }
  }

  class ComposerIterator<T> {
    const sources: seq<Source<T>>
    var index: nat
    var pos: nat

    constructor (s: seq<Source<T>>, i: nat, p: nat)
      ensures sources == s && index == i && pos == p
    {
      sources, index, pos := s, i, p;
    }

    /** Prefix `++`: one inner step; at the end of a source that is not the
     *  last, on to the next source's begin and the next slice. When no
     *  source is empty this is one step along the concatenation, and the
     *  iterator stays readable or reaches end(). */
    method Increment()
      requires index < |sources|
      modifies this
      ensures index < |sources|
      ensures (index, pos) ==
        if old(pos) + 1 == |sources[old(index)].items| && old(index) < |sources| - 1 then (old(index) + 1, 0)
        else (old(index), old(pos) + 1)
      ensures AllNonEmpty(sources) && old(pos) < |sources[old(index)].items| ==>
        Ordinal(sources, index, pos) == Ordinal(sources, old(index), old(pos)) + 1 &&
        (pos < |sources[index].items| || (index == |sources| - 1 && pos == |sources[index].items|))
    {
      pos := pos + 1;
      if pos == |sources[index].items| && index < |sources| - 1 {
        OrdinalNextSource(sources, index);
        index := index + 1;
        pos := 0;
      }
    }

    /** getSlice: the index of the current source. */
    function GetSlice(): (r: nat)
      reads this
      ensures r == index
    {
      index
    }

    /** `*it`, getRow and getCol pass through to the inner iterator. */
    function Current(): (r: Item<T>)
      requires index < |sources| && pos < |sources[index].items|
      reads this
      ensures Ordinal(sources, index, pos) < |Flatten(sources)|
      ensures r == Flatten(sources)[Ordinal(sources, index, pos)]
    {
      ComposerReadsConcatenation(sources, index, pos);
      sources[index].items[pos]
    }

    /** `==`: the inner iterators are equal, modelled as the same source
     *  and the same position in it; between positions that can be read or
     *  end(), that is the same place in the concatenation. */
    function Equals(b: ComposerIterator<T>): (r: bool)
      requires b.sources == sources && index < |sources| && b.index < |sources|
      requires pos < |sources[index].items| || (index == |sources| - 1 && pos == |sources[index].items|)
      requires b.pos < |sources[b.index].items| || (b.index == |sources| - 1 && b.pos == |sources[b.index].items|)
      reads this, b
      ensures r <==> Ordinal(sources, index, pos) == Ordinal(sources, b.index, b.pos)
    {
      var same := index == b.index && pos == b.pos;
      if Ordinal(sources, index, pos) == Ordinal(sources, b.index, b.pos) then
        OrdinalInjective(sources, index, pos, b.index, b.pos);
        same
      else
        same
    }
  }
}
