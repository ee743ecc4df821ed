/** main.py: the text chunker `chunk_text` and the assembly of the retrieval
    context inside `main`. */
module QaPipeline {
  import opened Py

  const DefaultChunkSize := 1000
  const DefaultOverlap := 200
  /** The separator `main` puts between selected chunks. */
  const ContextSeparator := "\n\n"

  // ---------------------------------------------------------------------------
  // Chunking
  // ---------------------------------------------------------------------------

  /** The window that starts at `start`: `text[start:start + chunk_size]`. */
  function Window(text: string, chunkSize: int, start: nat): string
  {
    Slice(text, start, start + chunkSize)
  }

  /** The candidate windows of `chunk_text`, one per value of
      `range(start, len(text), step)`, in that order. */
  function WindowsFrom(text: string, chunkSize: int, step: int, start: nat): seq<string>
    requires step > 0
    decreases |text| - start
  {
    if start >= |text| then []
    else [Window(text, chunkSize, start)] + WindowsFrom(text, chunkSize, step, start + step)
  }

  /** All candidate windows of `chunk_text(text, chunk_size, overlap)`. */
  function Windows(text: string, chunkSize: int, overlap: int): seq<string>
    requires chunkSize - overlap > 0
  {
    WindowsFrom(text, chunkSize, chunkSize - overlap, 0)
  }

  /** The windows whose `strip()` is truthy, in their original order. */
  function Kept(ws: seq<string>): (r: seq<string>)
    ensures |r| <= |ws|
    ensures forall j :: 0 <= j < |r| ==> HasContent(r[j])
  {
    if ws == [] then []
    else (if HasContent(ws[0]) then [ws[0]] else []) + Kept(ws[1..])
  }

  function Shift(s: seq<nat>): (r: seq<nat>)
    ensures |r| == |s|
    ensures forall j :: 0 <= j < |s| ==> r[j] == s[j] + 1
  {
    seq(|s|, j requires 0 <= j < |s| => s[j] + 1)
  }

  /** The window numbers of the kept windows: entry `j` of the chunk list is
      window number `KeptIndices(ws)[j]`, which in general differs from `j`. */
  function KeptIndices(ws: seq<string>): seq<nat>
  {
    if ws == [] then []
    else (if HasContent(ws[0]) then [0] else []) + Shift(KeptIndices(ws[1..]))
  }

  /** `chunk_text`: slide a window of `chunkSize` characters over `text` with
      step `chunkSize - overlap` and keep the windows that are not all
      whitespace. `range` raises for a zero step and yields nothing for a
      negative one, hence the precondition. */
  method ChunkText(text: string, chunkSize: int := DefaultChunkSize, overlap: int := DefaultOverlap)
    returns (chunks: seq<string>)
    requires chunkSize - overlap > 0
    ensures chunks == Kept(Windows(text, chunkSize, overlap))
    ensures text == [] ==> chunks == []
    ensures forall j :: 0 <= j < |chunks| ==> HasContent(chunks[j])
  {
    var step := chunkSize - overlap;
    chunks := [];
    var i: nat := 0;
    while i < |text|
      invariant Kept(Windows(text, chunkSize, overlap)) == chunks + Kept(WindowsFrom(text, chunkSize, step, i))
      decreases |text| - i
    {
      var chunk := Slice(text, i, i + chunkSize);
      ghost var rest := WindowsFrom(text, chunkSize, step, i + step);
      assert WindowsFrom(text, chunkSize, step, i) == [chunk] + rest;
      assert ([chunk] + rest)[1..] == rest;
      if HasContent(chunk) {
        assert Kept([chunk] + rest) == [chunk] + Kept(rest);
        chunks := chunks + [chunk];
      } else {
        assert Kept([chunk] + rest) == Kept(rest);
      }
      i := i + step;
    }
  }

  lemma MulSucc(k: int, step: int)
    ensures (k + 1) * step == k * step + step
  {
  }

  lemma {:induction false} MulNonneg(x: nat, step: int)
    requires step > 0
    ensures x * step >= 0
  {
    if x > 0 {
      MulNonneg(x - 1, step);
      MulSucc(x - 1, step);
    }
  }

  lemma MulMonotone(a: int, b: int, step: int)
    requires a <= b && step > 0
    ensures a * step <= b * step
  {
    assert b * step - a * step == (b - a) * step;
    MulNonneg(b - a, step);
  }

  lemma DivBounds(p: int, step: int)
    requires step > 0
    ensures (p / step) * step <= p < (p / step) * step + step
  {
  }

  /** The `k`-th value of `range(0, len(text), step)`: each start is one step
      past the previous one. */
  function WindowStart(k: nat, step: nat): nat
  {
    if k == 0 then 0 else WindowStart(k - 1, step) + step
  }

  /** The `k`-th start is `k * step`. */
  lemma {:induction false} WindowStartProduct(k: nat, step: nat)
    ensures WindowStart(k, step) == k * step
  {
    if k > 0 {
      WindowStartProduct(k - 1, step);
      MulSucc(k - 1, step);
    }
  }

  /** Division is determined by the quotient-remainder decomposition. */
  lemma DivUnique(a: int, b: int, q: int, r: int)
    requires b > 0 && 0 <= r < b && a == q * b + r
    ensures a / b == q
  {
    var q0 := a / b;
    DivBounds(a, b);
    if q0 < q {
      MulMonotone(q0 + 1, q, b);
      MulSucc(q0, b);
    } else if q0 > q {
      MulMonotone(q + 1, q0, b);
      MulSucc(q, b);
    }
  }

  /** Window `k` of `WindowsFrom(.., start)` starts `k` steps after `start`,
      inside the text. */
  lemma {:induction false} WindowsFromAt(text: string, chunkSize: int, step: int, start: nat, k: nat)
    requires step > 0
    requires k < |WindowsFrom(text, chunkSize, step, start)|
    ensures start + WindowStart(k, step) < |text|
    ensures WindowsFrom(text, chunkSize, step, start)[k] == Window(text, chunkSize, start + WindowStart(k, step))
    decreases k
  {
    var rest := WindowsFrom(text, chunkSize, step, start + step);
    assert WindowsFrom(text, chunkSize, step, start) == [Window(text, chunkSize, start)] + rest;
    if k > 0 {
      WindowsFromAt(text, chunkSize, step, start + step, k - 1);
      assert WindowsFrom(text, chunkSize, step, start)[k] == rest[k - 1];
      assert start + step + WindowStart(k - 1, step) == start + WindowStart(k, step);
    }
  }

  /** The windows of `WindowsFrom(.., start)` stop at the first start outside
      the text: the last one starts inside, and one more step would leave it. */
  lemma {:induction false} WindowsFromCount(text: string, chunkSize: int, step: int, start: nat)
    requires step > 0
    ensures var n := |WindowsFrom(text, chunkSize, step, start)|;
      n * step >= |text| - start && (n > 0 ==> start + (n - 1) * step < |text|)
    decreases |text| - start
  {
    if start < |text| {
      var rest := WindowsFrom(text, chunkSize, step, start + step);
      assert WindowsFrom(text, chunkSize, step, start) == [Window(text, chunkSize, start)] + rest;
      WindowsFromCount(text, chunkSize, step, start + step);
      MulSucc(|rest|, step);
      if |rest| > 0 {
        MulSucc(|rest| - 1, step);
      }
    }
  }

  /** There are `ceil(len(text) / step)` candidate windows. */
  lemma WindowCount(text: string, chunkSize: int, overlap: int)
    requires chunkSize - overlap > 0
    ensures |Windows(text, chunkSize, overlap)| == (|text| + (chunkSize - overlap) - 1) / (chunkSize - overlap)
  {
    var step := chunkSize - overlap;
    var m := |WindowsFrom(text, chunkSize, step, 0)|;
    WindowsFromCount(text, chunkSize, step, 0);
    if m == 0 {
      DivUnique(|text| + step - 1, step, 0, |text| + step - 1);
    } else {
      MulSucc(m - 1, step);
      DivUnique(|text| + step - 1, step, m, |text| + step - 1 - m * step);
    }
  }

  /** Window `k` starts at `WindowStart(k, step)` inside the text and, with a
      non-negative chunk size, is the text from there cut to at most
      `chunkSize` characters: `min(chunkSize, len(text) - start)` of them, so
      it is never empty when `chunkSize > 0`. */
  lemma WindowContent(text: string, chunkSize: int, overlap: int, k: nat)
    requires chunkSize - overlap > 0 && 0 <= chunkSize
    requires k < |Windows(text, chunkSize, overlap)|
    ensures WindowStart(k, chunkSize - overlap) < |text|
    ensures Windows(text, chunkSize, overlap)[k]
         == text[WindowStart(k, chunkSize - overlap)..Min(WindowStart(k, chunkSize - overlap) + chunkSize, |text|)]
    ensures |Windows(text, chunkSize, overlap)[k]| == Min(chunkSize, |text| - WindowStart(k, chunkSize - overlap)) <= chunkSize
    ensures 0 < chunkSize ==> Windows(text, chunkSize, overlap)[k] != []
  {
    var step := chunkSize - overlap;
    WindowsFromAt(text, chunkSize, step, 0, k);
    SliceNonNegative(text, WindowStart(k, step), WindowStart(k, step) + chunkSize);
  }

  /** There is one window number per kept chunk. */
  lemma {:induction false} KeptIndicesLength(ws: seq<string>)
    ensures |KeptIndices(ws)| == |Kept(ws)|
  {
    if ws != [] {
      KeptIndicesLength(ws[1..]);
    }
  }

  /** Kept chunk `j` is window number `KeptIndices(ws)[j]`. */
  lemma {:induction false} KeptIndexAt(ws: seq<string>, j: nat)
    requires j < |Kept(ws)|
    ensures |KeptIndices(ws)| == |Kept(ws)|
    ensures KeptIndices(ws)[j] < |ws| && Kept(ws)[j] == ws[KeptIndices(ws)[j]]
  {
    KeptIndicesLength(ws);
    var tail := ws[1..];
    var h := if HasContent(ws[0]) then 1 else 0;
    assert Kept(ws) == (if HasContent(ws[0]) then [ws[0]] else []) + Kept(tail);
    assert KeptIndices(ws) == (if HasContent(ws[0]) then [0] else []) + Shift(KeptIndices(tail));
    if j >= h {
      KeptIndexAt(tail, j - h);
      assert Kept(ws)[j] == Kept(tail)[j - h];
      assert KeptIndices(ws)[j] == KeptIndices(tail)[j - h] + 1;
    }
  }

  /** Window numbers of kept chunks strictly increase: document order. */
  lemma {:induction false} KeptIndicesIncreasing(ws: seq<string>)
    ensures forall j1, j2 :: 0 <= j1 < j2 < |KeptIndices(ws)| ==> KeptIndices(ws)[j1] < KeptIndices(ws)[j2]
  {
    if ws != [] {
      var tail := ws[1..];
      KeptIndicesIncreasing(tail);
      var ix, it := KeptIndices(ws), KeptIndices(tail);
      var head: seq<nat> := if HasContent(ws[0]) then [0] else [];
      assert ix == head + Shift(it);
      forall j1, j2 | 0 <= j1 < j2 < |ix|
        ensures ix[j1] < ix[j2]
      {
        assert ix[j2] == it[j2 - |head|] + 1;
        if j1 >= |head| {
          assert ix[j1] == it[j1 - |head|] + 1;
          assert it[j1 - |head|] < it[j2 - |head|];
        }
      }
    }
  }

  /** A window with a non-whitespace character is kept, at position `j`. */
  lemma {:induction false} KeptIndexOf(ws: seq<string>, k: nat) returns (j: nat)
    requires k < |ws| && HasContent(ws[k])
    ensures j < |KeptIndices(ws)| && KeptIndices(ws)[j] == k
  {
    var tail := ws[1..];
    var it := KeptIndices(tail);
    var head: seq<nat> := if HasContent(ws[0]) then [0] else [];
    assert KeptIndices(ws) == head + Shift(it);
    if k == 0 {
      j := 0;
    } else {
      assert ws[k] == tail[k - 1];
      var j' := KeptIndexOf(tail, k - 1);
      j := |head| + j';
      assert KeptIndices(ws)[j] == it[j'] + 1;
    }
  }

  /** A window is kept exactly when it has a non-whitespace character. */
  lemma KeptIndicesExact(ws: seq<string>)
    ensures forall k :: 0 <= k < |ws| ==> (HasContent(ws[k]) <==> k in KeptIndices(ws))
  {
    KeptIndicesLength(ws);
    forall k | 0 <= k < |ws|
      ensures HasContent(ws[k]) <==> k in KeptIndices(ws)
    {
      if HasContent(ws[k]) {
        var j := KeptIndexOf(ws, k);
      }
      if k in KeptIndices(ws) {
        var j :| 0 <= j < |KeptIndices(ws)| && KeptIndices(ws)[j] == k;
        KeptIndexAt(ws, j);
        assert Kept(ws)[j] == ws[k];
      }
    }
  }

  /** The kept chunks are exactly the windows with content, in document order,
      a subsequence of the candidate windows picked out by a strictly
      increasing list of window numbers. */
  lemma KeptIndicesSpec(ws: seq<string>)
    ensures var r, ix := Kept(ws), KeptIndices(ws);
      |ix| == |r|
      && (forall j :: 0 <= j < |ix| ==> ix[j] < |ws| && r[j] == ws[ix[j]])
      && (forall j1, j2 :: 0 <= j1 < j2 < |ix| ==> ix[j1] < ix[j2])
      && (forall k :: 0 <= k < |ws| ==> (HasContent(ws[k]) <==> k in ix))
  {
    KeptIndicesLength(ws);
    forall j | 0 <= j < |KeptIndices(ws)|
      ensures KeptIndices(ws)[j] < |ws| && Kept(ws)[j] == ws[KeptIndices(ws)[j]]
    {
      KeptIndexAt(ws, j);
    }
    KeptIndicesIncreasing(ws);
    KeptIndicesExact(ws);
  }

  /** Position `p` of `text` lies inside chunk `c`, which starts at `s`. */
  predicate Covers(text: string, c: string, s: nat, p: nat)
  {
    s <= p < s + |c| <= |text| && c == text[s..s + |c|]
  }

  /** With a non-negative overlap the step is at most the chunk size, so
      position `p` lies inside window number `p / step`. */
  lemma CoveringWindow(text: string, chunkSize: int, overlap: int, p: nat) returns (k: nat)
    requires 0 <= overlap < chunkSize
    requires p < |text|
    ensures k == p / (chunkSize - overlap)
    ensures k < |Windows(text, chunkSize, overlap)|
    ensures Covers(text, Windows(text, chunkSize, overlap)[k], WindowStart(k, chunkSize - overlap), p)
  {
    var step := chunkSize - overlap;
    var ws := Windows(text, chunkSize, overlap);
    k := p / step;
    DivBounds(p, step);
    WindowStartProduct(k, step);
    WindowsFromCount(text, chunkSize, step, 0);
    if k >= |ws| {
      MulMonotone(|ws|, k, step);
    }
    WindowContent(text, chunkSize, overlap, k);
  }

  /** With a non-negative overlap the step is at most the chunk size, so every
      non-whitespace character of the text lies inside some kept chunk (the
      one cut from window `p / step`), at its true position. */
  lemma Coverage(text: string, chunkSize: int, overlap: int, p: nat)
    requires 0 <= overlap < chunkSize
    requires p < |text| && !IsWhitespace(text[p])
    ensures |KeptIndices(Windows(text, chunkSize, overlap))| == |Kept(Windows(text, chunkSize, overlap))|
    ensures exists j ::
              0 <= j < |Kept(Windows(text, chunkSize, overlap))|
              && Covers(text, Kept(Windows(text, chunkSize, overlap))[j],
                        WindowStart(KeptIndices(Windows(text, chunkSize, overlap))[j], chunkSize - overlap), p)
  {
    var ws, step := Windows(text, chunkSize, overlap), chunkSize - overlap;
    var chunks, ix := Kept(ws), KeptIndices(ws);
    var k := CoveringWindow(text, chunkSize, overlap, p);
    var w := ws[k];
    assert w[p - WindowStart(k, step)] == text[p];
    assert HasContent(w);
    var j := KeptIndexOf(ws, k);
    KeptIndicesLength(ws);
    KeptIndexAt(ws, j);
    assert chunks[j] == w && ix[j] == k;
    assert Covers(text, chunks[j], WindowStart(ix[j], step), p);
  }

  /** With the defaults 1000/200, a 2500-character text has four candidate
      windows starting at 0, 800, 1600 and 2400; the last lies wholly inside
      the third. When no character is whitespace all four are kept. */
  lemma DefaultWindowsOf2500(text: string)
    requires |text| == 2500
    ensures Windows(text, DefaultChunkSize, DefaultOverlap)
         == [text[0..1000], text[800..1800], text[1600..2500], text[2400..2500]]
    ensures (forall i :: 0 <= i < |text| ==> !IsWhitespace(text[i])) ==>
         Kept(Windows(text, DefaultChunkSize, DefaultOverlap))
         == [text[0..1000], text[800..1800], text[1600..2500], text[2400..2500]]
  {
    var w0, w1, w2, w3 := text[0..1000], text[800..1800], text[1600..2500], text[2400..2500];
    assert WindowsFrom(text, 1000, 800, 2400) == [w3] + WindowsFrom(text, 1000, 800, 3200) == [w3];
    assert WindowsFrom(text, 1000, 800, 1600) == [w2] + WindowsFrom(text, 1000, 800, 2400) == [w2, w3];
    assert WindowsFrom(text, 1000, 800, 800) == [w1] + WindowsFrom(text, 1000, 800, 1600) == [w1, w2, w3];
    assert WindowsFrom(text, 1000, 800, 0) == [w0] + WindowsFrom(text, 1000, 800, 800) == [w0, w1, w2, w3];
    if forall i :: 0 <= i < |text| ==> !IsWhitespace(text[i]) {
      assert w0[0] == text[0] && w1[0] == text[800] && w2[0] == text[1600] && w3[0] == text[2400];
      assert HasContent(w0) && HasContent(w1) && HasContent(w2) && HasContent(w3);
      assert Kept([w3]) == [w3] + Kept([]);
      assert Kept([w2, w3]) == [w2] + Kept([w3]);
      assert Kept([w1, w2, w3]) == [w1] + Kept([w2, w3]);
      assert Kept([w0, w1, w2, w3]) == [w0] + Kept([w1, w2, w3]);
    }
  }

  // ---------------------------------------------------------------------------
  // Context assembly
  // ---------------------------------------------------------------------------

  /** `chunks[i]` raised `IndexError` for this index; `main` turns it into an
      error report and exit status 1. */
  datatype ContextError = IndexOutOfRange(index: int)

  /** `[chunks[i] for i in indices if i < len(chunks)]`, evaluated left to right:
      the first admitted index that Python cannot use raises. */
  function SelectChunks(chunks: seq<string>, indices: seq<int>): (r: Result<seq<string>, ContextError>)
    ensures r.Ok? <==> forall j :: 0 <= j < |indices| ==> 0 <= indices[j] + |chunks|
    ensures r.Ok? ==> |r.value| <= |indices|
    ensures r.Err? ==> exists j :: 0 <= j < |indices| && indices[j] == r.error.index
                          && indices[j] + |chunks| < 0
                          && forall j' :: 0 <= j' < j ==> 0 <= indices[j'] + |chunks|
  {
    if indices == [] then Ok([])
    else
      var i := indices[0];
      var rest := SelectChunks(chunks, indices[1..]);
      if i >= |chunks| then
        rest
      else if !InIndexRange(i, |chunks|) then
        Err(IndexOutOfRange(i))
      else if rest.Err? then
        rest
      else
        Ok([chunks[Position(i, |chunks|)]] + rest.value)
  }

  /** The indices that pass the filter `i < len(chunks)`, in order. */
  function Admitted(indices: seq<int>, n: nat): (a: seq<int>)
    ensures forall j :: 0 <= j < |a| ==> a[j] < n && a[j] in indices
  {
    if indices == [] then []
    else (if indices[0] < n then [indices[0]] else []) + Admitted(indices[1..], n)
  }

  /** The filter keeps the given order: filtering a concatenation is
      concatenating the filtered halves. */
  lemma {:induction false} AdmittedAppend(a: seq<int>, b: seq<int>, n: nat)
    ensures Admitted(a + b, n) == Admitted(a, n) + Admitted(b, n)
  {
    if a != [] {
      var head := if a[0] < n then [a[0]] else [];
      assert (a + b)[0] == a[0];
      assert (a + b)[1..] == a[1..] + b;
      AdmittedAppend(a[1..], b, n);
      assert Admitted(a + b, n) == head + Admitted(a[1..] + b, n);
      assert Admitted(a, n) == head + Admitted(a[1..], n);
      assert head + (Admitted(a[1..], n) + Admitted(b, n)) == (head + Admitted(a[1..], n)) + Admitted(b, n);
    } else {
      assert a + b == b;
    }
  }

  /** The filter drops exactly the indices `>= n` and keeps every other one as
      often as it occurs, duplicates included. */
  lemma {:induction false} AdmittedCounts(indices: seq<int>, n: nat)
    ensures forall v :: multiset(Admitted(indices, n))[v] == if v < n then multiset(indices)[v] else 0
  {
    if indices != [] {
      AdmittedCounts(indices[1..], n);
      assert indices == [indices[0]] + indices[1..];
    }
  }

  /** When every index is usable, the selection is the chunks at the admitted
      indices, with a negative index counting from the end of the list. */
  lemma {:induction false} SelectChunksReference(chunks: seq<string>, indices: seq<int>)
    requires forall j :: 0 <= j < |indices| ==> 0 <= indices[j] + |chunks|
    ensures var a, r := Admitted(indices, |chunks|), SelectChunks(chunks, indices);
      r.Ok? && |r.value| == |a|
      && forall j :: 0 <= j < |a| ==>
           InIndexRange(a[j], |chunks|) && r.value[j] == chunks[Position(a[j], |chunks|)]
  {
    if indices != [] {
      var n, i, tail := |chunks|, indices[0], indices[1..];
      assert forall j :: 0 <= j < |tail| ==> tail[j] == indices[j + 1];
      SelectChunksReference(chunks, tail);
      var a, at := Admitted(indices, n), Admitted(tail, n);
      var r, rt := SelectChunks(chunks, indices), SelectChunks(chunks, tail);
      if i < n {
        assert a == [i] + at;
        assert r.value == [chunks[Position(i, n)]] + rt.value;
        forall j | 0 <= j < |a|
          ensures InIndexRange(a[j], n) && r.value[j] == chunks[Position(a[j], n)]
        {
          if j > 0 {
            assert a[j] == at[j - 1];
            assert r.value[j] == rt.value[j - 1];
          }
        }
      } else {
        assert a == at;
      }
    }
  }

  /** The selection of a concatenation of index lists: the first error wins,
      otherwise the selections are concatenated in order. */
  lemma {:induction false} SelectChunksAppend(chunks: seq<string>, a: seq<int>, b: seq<int>)
    ensures SelectChunks(chunks, a + b) ==
      match SelectChunks(chunks, a)
      case Err(e) => Err(e)
      case Ok(x) =>
        match SelectChunks(chunks, b)
        case Err(e) => Err(e)
        case Ok(y) => Ok(x + y)
  {
    if a == [] {
      assert a + b == b;
      assert SelectChunks(chunks, a) == Ok([]);
      if SelectChunks(chunks, b).Ok? {
        assert [] + SelectChunks(chunks, b).value == SelectChunks(chunks, b).value;
      }
    } else {
      var n, i := |chunks|, a[0];
      assert (a + b)[0] == i;
      assert (a + b)[1..] == a[1..] + b;
      SelectChunksAppend(chunks, a[1..], b);
      var ra', rb := SelectChunks(chunks, a[1..]), SelectChunks(chunks, b);
      if i < n && InIndexRange(i, n) && ra'.Ok? && rb.Ok? {
        var c := chunks[Position(i, n)];
        assert [c] + (ra'.value + rb.value) == ([c] + ra'.value) + rb.value;
      }
    }
  }

  /** One index on its own: at or past the end it is skipped; a non-negative
      one selects that chunk; a negative one down to `-len(chunks)` (FAISS's
      `-1` "no result" marker among them) selects from the end; anything more
      negative is an error, not a skip. */
  lemma SelectOne(chunks: seq<string>, i: int)
    ensures i >= |chunks| ==> SelectChunks(chunks, [i]) == Ok([])
    ensures 0 <= i < |chunks| ==> SelectChunks(chunks, [i]) == Ok([chunks[i]])
    ensures i < 0 && 0 <= i + |chunks| ==> SelectChunks(chunks, [i]) == Ok([chunks[|chunks| + i]])
    ensures i + |chunks| < 0 ==> SelectChunks(chunks, [i]) == Err(IndexOutOfRange(i))
  {
    assert [i][1..] == [];
    assert SelectChunks(chunks, []) == Ok([]);
    if InIndexRange(i, |chunks|) {
      var c := chunks[Position(i, |chunks|)];
      assert SelectChunks(chunks, [i]) == Ok([c] + []);
      assert [c] + [] == [c];
    }
  }

  /** Lines 133-134 of `main`: the selected chunks joined with a blank line. */
  function AssembleContext(chunks: seq<string>, indices: seq<int>): (r: Result<string, ContextError>)
    ensures r.Ok? <==> forall j :: 0 <= j < |indices| ==> 0 <= indices[j] + |chunks|
    ensures SelectChunks(chunks, indices) == Ok([]) ==> r == Ok("")
  {
    match SelectChunks(chunks, indices)
    case Err(e) => Err(e)
    case Ok(selected) => Ok(Join(ContextSeparator, selected))
  }

  /** The context of a successful selection holds every selected chunk once and
      one two-character separator between neighbours; the context of a
      concatenation of index lists is the two contexts joined by the separator
      when both select something. */
  lemma ContextLayout(chunks: seq<string>, a: seq<int>, b: seq<int>)
    ensures SelectChunks(chunks, a).Ok? && SelectChunks(chunks, a).value != [] ==>
      AssembleContext(chunks, a).Ok?
      && |AssembleContext(chunks, a).value|
         == TotalLength(SelectChunks(chunks, a).value) + 2 * (|SelectChunks(chunks, a).value| - 1)
    ensures (SelectChunks(chunks, a).Ok? && SelectChunks(chunks, a).value != []
             && SelectChunks(chunks, b).Ok? && SelectChunks(chunks, b).value != []) ==>
      AssembleContext(chunks, a + b)
      == Ok(AssembleContext(chunks, a).value + ContextSeparator + AssembleContext(chunks, b).value)
  {
    SelectChunksAppend(chunks, a, b);
    var ra, rb := SelectChunks(chunks, a), SelectChunks(chunks, b);
    if ra.Ok? && ra.value != [] {
      JoinLength(ContextSeparator, ra.value);
      if rb.Ok? && rb.value != [] {
        JoinAppend(ContextSeparator, ra.value, rb.value);
      }
    }
  }
}
