/** The downsampling preprocessor of jcprepct.c: rows arrive in chunks of any size,
    and every downsampling step must see its own row group and, in context mode, the
    true image rows above and below it. */
module RowPreprocessing {
  import Numbers

  // ---- What the downsampler must see ----

  /** The image row nearest to row x. */
  function Clamp(x: int, height: nat): (y: nat)
    requires height > 0
    ensures y < height && (0 <= x < height ==> y == x)
  {
    if x < 0 then 0 else if x < height then x else height - 1
  }

  /** n rows from row `from` on, where the first and the last image row are repeated
      outside the image. */
  function Window<Row>(image: seq<Row>, from: int, n: nat): (w: seq<Row>)
    requires image != []
    ensures |w| == n && forall k :: 0 <= k < n ==> w[k] == image[Clamp(from + k, |image|)]
  {
    seq(n, k requires 0 <= k < n => image[Clamp(from + k, |image|)])
  }

  /** A row group of every component as the preprocessor delivers it: what the
      downsampler makes of the rows that it sees, or copies of its last output row. */
  datatype RowGroup<Row> = Downsampled(seen: seq<Row>) | LastRowOf(seen: seq<Row>)

  /** Row group g of the image, for v = max_v_samp_factor. Without context the rows
      below the last group are copies of its last downsampled row; with context they
      are downsampled from copies of the last image row. */
  function GroupAt<Row>(image: seq<Row>, v: nat, context: bool, g: nat): (r: RowGroup<Row>)
    requires image != [] && v > 0
  {
    if context then Downsampled(Window(image, g * v - v, 3 * v))
    else if g * v < |image| then Downsampled(Window(image, g * v, v))
    else LastRowOf(Window(image, (|image| - 1) / v * v, v))
  }

  /** A group that starts in the image is downsampled from its own rows, in context mode
      with v more on each side; above the image stand copies of its first row, below it
      copies of its last row. */
  lemma GroupSees<Row>(image: seq<Row>, v: nat, context: bool, g: nat, k: nat)
    requires image != [] && v > 0 && (context || g * v < |image|) && k < (if context then 3 * v else v)
    ensures var r := GroupAt(image, v, context, g);
            && r.Downsampled? && |r.seen| == (if context then 3 * v else v)
            && var x := g * v + k - if context then v else 0;
               r.seen[k] == if x < 0 then image[0] else if x < |image| then image[x] else image[|image| - 1]
  {
    if g > 0 {
      Numbers.MulMono(1, g, v);
    }
  }

  /** A group below the image stands for copies of the last row that is made of the last
      group in the image. */
  lemma GroupBelow<Row>(image: seq<Row>, v: nat, last: nat, g: nat)
    requires image != [] && v > 0 && last * v < |image| <= last * v + v && g > last
    ensures GroupAt(image, v, false, g) == LastRowOf(GroupAt(image, v, false, last).seen)
  {
    hide Window;
    BelowLast(image, v, last, last * v, g);
  }

  /** Below the last group that starts in the image, every group repeats its last row. */
  lemma BelowLast<Row>(image: seq<Row>, v: nat, last: nat, base: nat, g: nat)
    requires v > 0 && image != [] && base == last * v && base < |image| <= base + v && g > last
    ensures GroupAt(image, v, false, g) == LastRowOf(Window(image, base, v))
  {
    hide Window;
    Numbers.DivModUnique(|image| - 1, v, last, |image| - 1 - base);
    Numbers.MulMono(last + 1, g, v);
    Numbers.Distribute(last, 1, v);
  }

  // ---- The buffer ----

  /** The sample row behind index k of a row pointer array that wraps around. */
  function Slot(n: nat, k: int): (r: int) {
    if k < 0 then k + n else if k >= n then k - n else k
  }

  /** The row k below the first row t of the current group is image row base + k. */
  ghost predicate Ready<Row(!new)>(image: seq<Row>, samples: seq<Row>, t: int, base: nat, k: int)
    requires image != []
  {
    var i := Slot(|samples|, t + k);
    0 <= i < |samples| && samples[i] == image[Clamp(base + k, |image|)]
  }

  ghost predicate Holds<Row(!new)>(image: seq<Row>, samples: seq<Row>, t: int, base: nat, lo: int, hi: int)
    requires image != []
  {
    forall k :: lo <= k < hi ==> Ready(image, samples, t, base, k)
  }

  /** Storing the next image row keeps the others, as long as all fit. */
  lemma StoreBelow<Row(!new)>(image: seq<Row>, samples: seq<Row>, t: int, base: nat, lo: int, hi: int)
    requires image != [] && Holds(image, samples, t, base, lo, hi)
    requires lo <= hi < lo + |samples| && -|samples| <= t + lo && t + hi < 2 * |samples|
    ensures var i := Slot(|samples|, t + hi);
            && 0 <= i < |samples|
            && Holds(image, samples[i := image[Clamp(base + hi, |image|)]], t, base, lo, hi + 1)
  {
    var i := Slot(|samples|, t + hi);
    var s := samples[i := image[Clamp(base + hi, |image|)]];
    forall k | lo <= k < hi ensures Ready(image, s, t, base, k) {
      assert Ready(image, samples, t, base, k);
    }
  }

  lemma StoreAbove<Row(!new)>(image: seq<Row>, samples: seq<Row>, t: int, base: nat, lo: int, hi: int)
    requires image != [] && Holds(image, samples, t, base, lo, hi)
    requires lo <= hi < lo + |samples| && -|samples| < t + lo && t + hi <= 2 * |samples|
    ensures var i := Slot(|samples|, t + lo - 1);
            && 0 <= i < |samples|
            && Holds(image, samples[i := image[Clamp(base + lo - 1, |image|)]], t, base, lo - 1, hi)
  {
    var i := Slot(|samples|, t + lo - 1);
    var s := samples[i := image[Clamp(base + lo - 1, |image|)]];
    forall k | lo <= k < hi ensures Ready(image, s, t, base, k) {
      assert Ready(image, samples, t, base, k);
    }
  }

  /** Moving on to the next row group. */
  lemma NextGroup<Row(!new)>(image: seq<Row>, samples: seq<Row>, v: nat, t: int, base: nat)
    requires image != [] && v > 0 && |samples| == 3 * v && (t == 0 || t == v || t == 2 * v)
    requires Holds(image, samples, t, base, 0 - v, 2 * v)
    ensures Holds(image, samples, if t + v >= 3 * v then 0 else t + v, base + v, 0 - v, v)
  {
    var t' := if t + v >= 3 * v then 0 else t + v;
    var next: nat := base + v;
    forall k | 0 - v <= k < v ensures Ready(image, samples, t', next, k) {
      assert Ready(image, samples, t, base, k + v);
    }
  }

  /** create_context_buffer: pointers to three row groups, with the last group again
      above them and the first group again below them. */
  method CreateContextBuffer(v: nat) returns (pointers: seq<nat>)
    requires v > 0
    ensures |pointers| == 5 * v
    ensures forall i :: 0 <= i < 5 * v ==> pointers[i] == Slot(3 * v, i - v)
  {
    var fake := new nat[5 * v];
    for i := 0 to 3 * v
      invariant forall j :: v <= j < v + i ==> fake[j] == j - v
    {
      fake[v + i] := i;
    }
    for i := 0 to v
      invariant forall j :: v <= j < 4 * v ==> fake[j] == j - v
      invariant forall j :: 0 <= j < i ==> fake[j] == 2 * v + j
      invariant forall j :: 4 * v <= j < 4 * v + i ==> fake[j] == j - 4 * v
    {
      fake[i] := 2 * v + i;
      fake[4 * v + i] := i;
    }
    pointers := fake[..];
  }

  /** expand_bottom_edge on output_buf: repeat the last row of the group before outCtr. */
  method RepeatLastGroup<Row>(output: array<RowGroup<Row>>, outCtr: nat, outAvail: nat)
    requires 0 < outCtr <= outAvail <= output.Length
    modifies output
    ensures forall g :: outCtr <= g < outAvail ==> output[g] == LastRowOf(old(output[outCtr - 1]).seen)
    ensures forall g :: 0 <= g < output.Length && !(outCtr <= g < outAvail) ==> output[g] == old(output[g])
  {
    for g := outCtr to outAvail
      invariant forall j :: outCtr <= j < g ==> output[j] == LastRowOf(old(output[outCtr - 1]).seen)
      invariant forall j :: 0 <= j < output.Length && !(outCtr <= j < g) ==> output[j] == old(output[j])
    {
      output[g] := LastRowOf(output[outCtr - 1].seen);
    }
  }

  /** The preprocessing controller. `image` is the whole image, row by row after
      colour conversion; the rows that the caller passes are its successive rows. */
  class PrepController<Row(0,!new)> {
    const v: nat                       // max_v_samp_factor
    const imageHeight: nat
    const context: bool                // need_context_rows
    const pointers: seq<nat>
    const origin: nat                  // color_buf[k] is samples[pointers[origin + k]]
    const samples: array<Row>          // the sample rows of the buffer
    var rowsToGo: nat
    var nextBufRow: int
    var thisRowGroup: int
    var nextBufStop: int

    ghost const image: seq<Row>
    ghost var groups: nat              // row groups delivered so far
    ghost var base: nat                // the image row where the next group starts
    ghost var filled: nat              // rows in the buffer from there on

    ghost predicate Shape()
      reads this
    {
      && v > 0 && image != [] && imageHeight == |image|
      && samples.Length == (if context then 3 * v else v)
      && origin == (if context then v else 0) && |pointers| == (if context then 5 * v else v)
      && forall i :: 0 <= i < |pointers| ==> pointers[i] == Slot(samples.Length, i - origin)
    }

    /** The index of the row that stands n rows below the current group's first row. */
    function Place(n: int): (k: int)
      reads this
    {
      if context && thisRowGroup == 2 * v then n - v else thisRowGroup + n
    }

    /** The counters agree with each other. */
    ghost predicate Counted()
      reads this
    {
      && base == groups * v && rowsToGo <= |image| && nextBufRow == Place(filled)
      && (thisRowGroup == 0 || (context && thisRowGroup == v) || (context && thisRowGroup == 2 * v))
      && if context then
           && nextBufStop == Place(2 * v) && (base > 0 ==> filled >= v) && (base == 0 ==> thisRowGroup == 0)
           && (if rowsToGo > 0 then base + filled == |image| - rowsToGo else base + filled >= |image|)
         else
           && (filled > 0 ==> base < |image|)
           && if rowsToGo > 0 then base + filled == |image| - rowsToGo else base + filled >= |image|
    }

    /** The buffer holds the image from the current group on, in context mode from one
        group above it. */
    ghost predicate Loaded()
      requires image != []
      reads this, samples
    {
      && filled <= (if context then 2 * v else v)
      && (filled > 0 ==> Holds(image, samples[..], thisRowGroup, base, if context then 0 - v else 0, filled))
    }

    ghost predicate Valid()
      reads this, samples
    {
      && Shape() && Loaded() && Counted() && filled < (if context then 2 * v else v)
      && (!context && rowsToGo == 0 ==> filled == 0)
    }

    /** jinit_c_prep_controller and start_pass_prep. */
    constructor (ghost image: seq<Row>, imageHeight: nat, v: nat, context: bool)
      requires v > 0 && imageHeight == |image| > 0
      ensures Valid() && fresh(samples)
      ensures this.image == image && this.v == v && this.context == context
      ensures rowsToGo == |image| && groups == 0
    {
      this.image, this.imageHeight, this.v, this.context := image, imageHeight, v, context;
      rowsToGo, nextBufRow, thisRowGroup, nextBufStop := imageHeight, 0, 0, 2 * v;
      groups, base, filled := 0, 0, 0;
      if context {
        var fake := CreateContextBuffer(v);
        pointers, origin := fake, v;
        samples := new Row[3 * v];
      } else {
        pointers, origin := seq(v, i => i), 0;
        samples := new Row[v];
      }
    }

    /** The pointer at Place(x) leads to the row that is x below the current group. */
    lemma PlaceSlot(x: nat)
      requires Shape() && Counted() && filled - 1 <= x < (if context then 2 * v else v)
      ensures 0 <= origin + Place(x) < |pointers|
      ensures pointers[origin + Place(x)] == Slot(samples.Length, thisRowGroup + x)
    {
    }

    /** color_buf[k] = row, where row is the image row x below the current group. */
    method StoreNext(row: Row, k: int, ghost x: nat, ghost lo: int)
      requires Shape() && Counted() && filled <= x < (if context then 2 * v else v) && k == Place(x)
      requires 0 - v <= lo <= 0 && (!context ==> lo == 0) && Holds(image, samples[..], thisRowGroup, base, lo, x)
      requires row == image[Clamp(base + x, |image|)]
      modifies samples
      ensures Holds(image, samples[..], thisRowGroup, base, lo, x + 1)
    {
      PlaceSlot(x);
      StoreBelow(image, samples[..], thisRowGroup, base, lo, x);
      hide Holds, Slot;
      ghost var was := samples[..];
      var i := pointers[origin + k];
      samples[i] := row;
      assert samples[..] == was[i := row];
    }

    /** color_convert: store n rows of the input, from index `from` on. */
    method ColorConvert(input: seq<Row>, from: nat, n: nat, ghost lo: int)
      requires Shape() && Counted() && from + n <= |input| && filled + n <= (if context then 2 * v else v)
      requires 0 - v <= lo <= 0 && (!context ==> lo == 0) && Holds(image, samples[..], thisRowGroup, base, lo, filled)
      requires forall j :: from <= j < from + n ==> input[j] == image[Clamp(base + filled + j - from, |image|)]
      modifies samples
      ensures Holds(image, samples[..], thisRowGroup, base, lo, filled + n)
    {
      hide Holds, Slot;
      for j := 0 to n
        invariant Holds(image, samples[..], thisRowGroup, base, lo, filled + j)
      {
        StoreNext(input[from + j], nextBufRow + j, filled + j, lo);
      }
    }

    /** "Pad at top of image": copy the first row into the row group above it. */
    method PadTop(ghost hi: nat)
      requires Shape() && context && thisRowGroup == 0 && base == 0 && 0 < hi <= 2 * v
      requires Holds(image, samples[..], 0, 0, 0, hi)
      modifies samples
      ensures Holds(image, samples[..], 0, 0, 0 - v, hi)
    {
      for row := 1 to v + 1
        invariant Holds(image, samples[..], 0, 0, 1 - row, hi)
      {
        StoreAbove(image, samples[..], 0, 0, 1 - row, hi);
        assert Ready(image, samples[..], 0, 0, 0);
        ghost var was := samples[..];
        var from, to := pointers[origin], pointers[origin - row];
        hide Holds;
        samples[to] := samples[from];
        assert samples[..] == was[to := was[from]];
      }
    }

    /** expand_bottom_edge on color_buf: repeat the last row. */
    method ExpandBottomEdge(inputRows: int, outputRows: int)
      requires Shape() && Counted() && Loaded() && 0 < filled && base + filled >= |image|
      requires inputRows == nextBufRow && outputRows == Place(if context then 2 * v else v)
      modifies samples
      ensures Holds(image, samples[..], thisRowGroup, base, if context then 0 - v else 0, if context then 2 * v else v)
    {
      ghost var lo, x := if context then 0 - v else 0, filled;
      var row := inputRows;
      while row < outputRows
        invariant inputRows <= row <= outputRows && row == Place(x) && filled <= x
        invariant Holds(image, samples[..], thisRowGroup, base, lo, x)
      {
        PlaceSlot(filled - 1);
        assert Ready(image, samples[..], thisRowGroup, base, filled - 1);
        var last := samples[pointers[origin + inputRows - 1]];
        StoreNext(last, row, x, lo);
        row, x := row + 1, x + 1;
      }
    }

    /** The rows that the downsampler reads, from `above` rows above the current row
        group to `below` rows below its first row. */
    method Look(above: nat, below: nat) returns (seen: seq<Row>)
      requires Shape() && Counted()
      requires if context then above == v && below == 2 * v else above == 0 && below == v
      requires Holds(image, samples[..], thisRowGroup, base, 0 - above, below)
      ensures seen == Window(image, base - above, above + below)
    {
      seen := [];
      for j := 0 to above + below
        invariant |seen| == j && forall i :: 0 <= i < j ==> seen[i] == image[Clamp(base - above + i, |image|)]
      {
        assert Ready(image, samples[..], thisRowGroup, base, j - above);
        seen := seen + [samples[pointers[origin + thisRowGroup - above + j]]];
      }
    }

    /** How far the buffer is to be filled before the next downsampling. */
    ghost function Capacity(): (n: nat)
      reads this
    {
      if context then 2 * v else v
    }

    /** The part of the state that one step of the loops may find: the buffer may be
        full. */
    ghost predicate Steady()
      reads this, samples
    {
      Shape() && Loaded() && Counted()
    }

    /** The rows that the caller passes are the next rows of the image. */
    ghost predicate Supplies(input: seq<Row>, from: nat, avail: nat)
      reads this
    {
      && avail <= |input| && rowsToGo <= |image| && (from < avail ==> avail - from <= rowsToGo)
      && forall j :: from <= j < avail ==> input[j] == image[|image| - rowsToGo + j - from]
    }

    /** One round of colour conversion. */
    method TakeRows(input: seq<Row>, from: nat, n: nat)
      requires Steady() && 0 < n <= rowsToGo && filled + n <= Capacity() && from + n <= |input|
      requires Supplies(input, from, from + n)
      modifies this, samples
      ensures Steady() && rowsToGo == old(rowsToGo) - n && filled == old(filled) + n
      ensures groups == old(groups) && base == old(base) && thisRowGroup == old(thisRowGroup)
      ensures nextBufRow == old(nextBufRow) + n && nextBufStop == old(nextBufStop)
    {
      ghost var lo := if context && filled > 0 then 0 - v else 0;
      ColorConvert(input, from, n, lo);
      hide Holds;
      if context && rowsToGo == imageHeight {
        PadTop(filled + n);
      }
      nextBufRow, rowsToGo, filled := nextBufRow + n, rowsToGo - n, filled + n;
    }

    /** "When at bottom of image, pad to fill the conversion buffer." */
    method FillBottom()
      requires Steady() && rowsToGo == 0 && 0 < filled
      modifies this, samples
      ensures Steady() && filled == Capacity() && nextBufRow == Place(filled)
      ensures groups == old(groups) && base == old(base) && thisRowGroup == old(thisRowGroup)
      ensures rowsToGo == 0 && nextBufStop == old(nextBufStop)
    {
      var stop := if context then nextBufStop else v;
      ExpandBottomEdge(nextBufRow, stop);
      nextBufRow := stop;
      filled := if context then 2 * v else v;
    }

    /** The buffer has been downsampled: start on the next row group. */
    method Advance()
      requires Steady() && context && filled == Capacity()
      modifies this
      ensures Valid() && groups == old(groups) + 1 && rowsToGo == old(rowsToGo)
    {
      NextGroup(image, samples[..], v, thisRowGroup, base);
      hide Holds;
      thisRowGroup := thisRowGroup + v;
      if thisRowGroup >= v * 3 {
        thisRowGroup := 0;
      }
      if nextBufRow >= v * 3 {
        nextBufRow := 0;
      }
      nextBufStop := nextBufRow + v;
      assert (groups + 1) * v == groups * v + v;
      base, filled, groups := base + v, filled - v, groups + 1;
    }

    /** How many rows the buffer still takes. */
    lemma Room()
      requires Valid() && context
      ensures 0 < nextBufStop - nextBufRow == 2 * v - filled
      ensures rowsToGo == 0 ==> 0 < filled
    {
    }

    /** Downsample the current row group. */
    method EmitContext(output: array<RowGroup<Row>>, g: nat)
      requires Steady() && context && filled == Capacity() && g < output.Length && output as object != samples
      modifies this, output
      ensures Valid() && groups == old(groups) + 1 && rowsToGo == old(rowsToGo)
      ensures output[..] == old(output[..])[g := GroupAt(image, v, context, old(groups))]
    {
      var seen := Look(v, 2 * v);
      hide Holds, Window, Slot;
      output[g] := Downsampled(seen);
      assert output[..] == old(output[..])[g := Downsampled(seen)];
      Advance();
    }

    /** The groups of a call, as the output buffer shows them. */
    ghost predicate Delivered(before: seq<RowGroup<Row>>, after: seq<RowGroup<Row>>, from: nat, to: nat, first: nat)
      requires v > 0 && image != []
      reads this
    {
      && |after| == |before| && from <= to <= |after|
      && (forall g :: from <= g < to ==> after[g] == GroupAt(image, v, context, first + g - from))
      && (forall g :: 0 <= g < |after| && !(from <= g < to) ==> after[g] == before[g])
    }

    /** Get rows for the buffer in context mode, at the bottom of the image by padding. */
    method Refill(input: seq<Row>, inRowCtr: nat, inRowsAvail: nat) returns (inRow: nat, more: bool)
      requires Valid() && context && Supplies(input, inRowCtr, inRowsAvail)
      modifies this, samples
      ensures Steady() && inRowCtr <= inRow && (inRow <= inRowsAvail || inRow == inRowCtr)
      ensures Supplies(input, inRow, inRowsAvail)
      ensures rowsToGo == old(rowsToGo) - (inRow - inRowCtr) && groups == old(groups)
      ensures !more ==> Valid() && inRow >= inRowsAvail && rowsToGo > 0
      ensures more && inRow == inRowCtr ==> rowsToGo == 0
      ensures more ==> inRow > inRowCtr || filled == Capacity()
      ensures filled <= Capacity() && nextBufRow == Place(filled) && nextBufStop == Place(Capacity())
    {
      hide Holds, Slot, Window;
      inRow, more := inRowCtr, true;
      Room();
      if inRow < inRowsAvail {
        var numRows := if nextBufStop - nextBufRow < inRowsAvail - inRow then nextBufStop - nextBufRow
                       else inRowsAvail - inRow;
        TakeRows(input, inRow, numRows);
        inRow := inRow + numRows;
      } else {
        if rowsToGo != 0 {
          more := false;
        } else if nextBufRow < nextBufStop {
          FillBottom();
        }
      }
    }

    /** pre_process_context. */
    method PreProcessContext(input: seq<Row>, inRowCtr: nat, inRowsAvail: nat, output: array<RowGroup<Row>>,
                             outCtr: nat, outAvail: nat)
      returns (inRow: nat, outGroup: nat)
      requires Valid() && context && Supplies(input, inRowCtr, inRowsAvail)
      requires outCtr <= outAvail <= output.Length && output as object != samples
      modifies this, samples, output
      ensures Valid() && inRowCtr <= inRow && (inRow <= inRowsAvail || inRow == inRowCtr)
              && outCtr <= outGroup <= outAvail
      ensures inRow == inRowCtr && old(rowsToGo) > 0 ==> outGroup == outCtr
      ensures rowsToGo == old(rowsToGo) - (inRow - inRowCtr) && groups == old(groups) + (outGroup - outCtr)
      ensures Delivered(old(output[..]), output[..], outCtr, outGroup, old(groups))
      ensures outGroup == outAvail || (inRow >= inRowsAvail && rowsToGo > 0)
    {
      hide Holds, Slot, Window, GroupAt;
      inRow, outGroup := inRowCtr, outCtr;
      while outGroup < outAvail
        invariant Valid() && inRowCtr <= inRow && (inRow <= inRowsAvail || inRow == inRowCtr)
                  && outCtr <= outGroup <= outAvail
        invariant inRow == inRowCtr && old(rowsToGo) > 0 ==> outGroup == outCtr
        invariant rowsToGo == old(rowsToGo) - (inRow - inRowCtr) && groups == old(groups) + (outGroup - outCtr)
        invariant Supplies(input, inRow, inRowsAvail)
        invariant Delivered(old(output[..]), output[..], outCtr, outGroup, old(groups))
        decreases outAvail - outGroup, inRowsAvail - inRow
      {
        var more;
        inRow, more := Refill(input, inRow, inRowsAvail);
        if !more {
          break;
        }
        if nextBufRow == nextBufStop {
          EmitContext(output, outGroup);
          outGroup := outGroup + 1;
        }
      }
    }

    /** Downsample the only row group in the buffer. */
    method EmitSimple(output: array<RowGroup<Row>>, g: nat)
      requires Steady() && !context && filled == Capacity() && g < output.Length && output as object != samples
      modifies this, output
      ensures Valid() && groups == old(groups) + 1 && rowsToGo == old(rowsToGo) && filled == 0
      ensures old(base) < |image| && base == old(base) + v
      ensures output[..] == old(output[..])[g := Downsampled(Window(image, old(base), v))]
      ensures output[g] == GroupAt(image, v, context, old(groups))
    {
      var seen := Look(0, v);
      output[g] := Downsampled(seen);
      assert (groups + 1) * v == groups * v + v;
      nextBufRow := 0;
      base, filled, groups := base + v, 0, groups + 1;
    }

    /** "Pad the output to a full iMCU height": repeat the last row of the last group. */
    method PadOutput(output: array<RowGroup<Row>>, outCtr: nat, outAvail: nat)
      requires Valid() && !context && rowsToGo == 0 && filled == 0 && 0 < outCtr <= outAvail <= output.Length
      requires output as object != samples && groups > 0 && base - v < |image|
      requires output[outCtr - 1] == Downsampled(Window(image, base - v, v))
      modifies this, output
      ensures Valid() && groups == old(groups) + (outAvail - outCtr) && rowsToGo == 0
      ensures Delivered(old(output[..]), output[..], outCtr, outAvail, old(groups))
    {
      hide Holds, Slot, Window, GroupAt;
      RepeatLastGroup(output, outCtr, outAvail);
      Numbers.Distribute(groups - 1, 1, v);
      BelowAll(output[..], outCtr, outAvail);
      ghost var n: nat := outAvail - outCtr;
      Numbers.Distribute(groups, n, v);
      Numbers.MulMono(0, n, v);
      groups, base := groups + n, base + n * v;
    }

    lemma BelowAll(after: seq<RowGroup<Row>>, from: nat, to: nat)
      requires v > 0 && image != [] && !context && groups > 0 && from <= to <= |after|
      requires base == groups * v && base - v == (groups - 1) * v && 0 <= base - v < |image| <= base
      requires forall j :: from <= j < to ==> after[j] == LastRowOf(Window(image, base - v, v))
      ensures forall g :: from <= g < to ==> after[g] == GroupAt(image, v, context, groups + g - from)
    {
      hide Window, GroupAt;
      forall g | from <= g < to ensures after[g] == GroupAt(image, v, context, groups + g - from) {
        BelowLast(image, v, groups - 1, base - v, groups + g - from);
      }
    }

    /** pre_process_data: without context rows, a buffer of one row group is enough. */
    method PreProcessData(input: seq<Row>, inRowCtr: nat, inRowsAvail: nat, output: array<RowGroup<Row>>,
                          outCtr: nat, outAvail: nat)
      returns (inRow: nat, outGroup: nat)
      requires Valid() && !context && Supplies(input, inRowCtr, inRowsAvail)
      requires outCtr <= outAvail <= output.Length && output as object != samples
      modifies this, samples, output
      ensures Valid() && inRowCtr <= inRow && (inRow <= inRowsAvail || inRow == inRowCtr)
              && outCtr <= outGroup <= outAvail
      ensures inRow == inRowCtr && old(rowsToGo) > 0 ==> outGroup == outCtr
      ensures rowsToGo == old(rowsToGo) - (inRow - inRowCtr) && groups == old(groups) + (outGroup - outCtr)
      ensures Delivered(old(output[..]), output[..], outCtr, outGroup, old(groups))
      ensures outGroup == outAvail || (inRow >= inRowsAvail && (rowsToGo > 0 || old(rowsToGo) == 0))
    {
      hide Holds, Slot, Window, GroupAt;
      inRow, outGroup := inRowCtr, outCtr;
      while inRow < inRowsAvail && outGroup < outAvail
        invariant Valid() && inRowCtr <= inRow && (inRow <= inRowsAvail || inRow == inRowCtr)
                  && outCtr <= outGroup <= outAvail
        invariant inRow == inRowCtr && old(rowsToGo) > 0 ==> outGroup == outCtr
        invariant rowsToGo == old(rowsToGo) - (inRow - inRowCtr) && groups == old(groups) + (outGroup - outCtr)
        invariant Supplies(input, inRow, inRowsAvail)
        invariant Delivered(old(output[..]), output[..], outCtr, outGroup, old(groups))
        invariant rowsToGo == 0 < old(rowsToGo) ==> outGroup == outAvail
        decreases inRowsAvail - inRow
      {
        var numRows := if v - nextBufRow < inRowsAvail - inRow then v - nextBufRow else inRowsAvail - inRow;
        inRow, outGroup := OneGroup(input, inRow, numRows, output, outGroup, outAvail);
      }
    }

    /** One round of pre_process_data. */
    method OneGroup(input: seq<Row>, inRowCtr: nat, numRows: nat, output: array<RowGroup<Row>>, outCtr: nat,
                    outAvail: nat)
      returns (inRow: nat, outGroup: nat)
      requires Valid() && !context && Supplies(input, inRowCtr, inRowCtr + numRows) && 0 < numRows <= v - nextBufRow
      requires outCtr < outAvail <= output.Length && output as object != samples
      modifies this, samples, output
      ensures Valid() && inRow == inRowCtr + numRows && outCtr <= outGroup <= outAvail
      ensures rowsToGo == old(rowsToGo) - numRows && groups == old(groups) + (outGroup - outCtr)
      ensures Delivered(old(output[..]), output[..], outCtr, outGroup, old(groups))
      ensures rowsToGo == 0 ==> outGroup == outAvail
    {
      hide Holds, Slot, Window, GroupAt;
      outGroup := outCtr;
      TakeRows(input, inRowCtr, numRows);
      inRow := inRowCtr + numRows;
      if rowsToGo == 0 && nextBufRow < v {
        FillBottom();
      }
      if nextBufRow == v {
        EmitSimple(output, outGroup);
        outGroup := outGroup + 1;
      }
      if rowsToGo == 0 && outGroup < outAvail {
        PadOutput(output, outGroup, outAvail);
        outGroup := outAvail;
      }
    }

    /** prep->pre_process_data. It stops only with a full output buffer or for want of
        rows. */
    method PreProcess(input: seq<Row>, inRowCtr: nat, inRowsAvail: nat, output: array<RowGroup<Row>>,
                      outCtr: nat, outAvail: nat)
      returns (inRow: nat, outGroup: nat)
      requires Valid() && Supplies(input, inRowCtr, inRowsAvail)
      requires outCtr <= outAvail <= output.Length && output as object != samples
      modifies this, samples, output
      ensures Valid() && inRowCtr <= inRow && (inRow <= inRowsAvail || inRow == inRowCtr)
              && outCtr <= outGroup <= outAvail
      ensures inRow == inRowCtr && old(rowsToGo) > 0 ==> outGroup == outCtr
      ensures rowsToGo == old(rowsToGo) - (inRow - inRowCtr) && groups == old(groups) + (outGroup - outCtr)
      ensures Delivered(old(output[..]), output[..], outCtr, outGroup, old(groups))
      ensures outGroup == outAvail || (inRow >= inRowsAvail && (rowsToGo > 0 || (!context && old(rowsToGo) == 0)))
    {
      if context {
        inRow, outGroup := PreProcessContext(input, inRowCtr, inRowsAvail, output, outCtr, outAvail);
      } else {
        inRow, outGroup := PreProcessData(input, inRowCtr, inRowsAvail, output, outCtr, outAvail);
      }
    }

    /** Enough row groups for the whole image have been delivered only when all its rows
        have been taken; without context, also the other way round. */
    lemma Complete(n: nat)
      requires Valid() && n * v >= |image|
      ensures groups >= n ==> rowsToGo == 0
      ensures !context && rowsToGo == 0 ==> groups * v >= |image|
    {
      hide Holds, Slot;
      if groups >= n {
        Numbers.MulMono(n, groups, v);
      }
    }
  }
}
