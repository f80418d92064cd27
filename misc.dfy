/** ssfunc/misc.py: cutting frame ranges out of a clip (output_ranges) and generating
    numbered screenshots from a list of frames (screengen). A clip is the sequence of its
    frames; the frame engine's own work (decoding, format conversion, image writing) is
    not modelled. */
module Misc {
  import opened Wrappers
  import opened PyStr

  // ---------------------------------------------------------------------------
  // output_ranges
  // ---------------------------------------------------------------------------

  /** One element of `ranges`: a `(start, end)` tuple or a bare frame number. */
  datatype RangeItem = Pair(first: int, last: int) | Single(frame: int)

  /** The `(start, end)` the first loop of output_ranges reads from one element:
      the tuple itself, or the bare frame twice. */
  function Bounds(r: RangeItem): (b: (int, int))
    ensures r.Pair? ==> b == (r.first, r.last)
    ensures r.Single? ==> b == (r.frame, r.frame)
  {
    match r
    case Pair(a, b) => (a, b)
    case Single(f) => (f, f)
  }

  /** Python's slice normalisation (`slice.indices`, step 1) of one index for n frames:
      negative indices count from the end, and everything is clamped into [0, n]. */
  function SliceIndex(i: int, n: nat): (r: nat)
    ensures r <= n
    ensures 0 <= i <= n ==> r == i
    ensures i < 0 ==> r == if i + n < 0 then 0 else i + n
    ensures i > n ==> r == n
  {
    if i < 0 then (if i + n < 0 then 0 else i + n)
    else if i > n then n
    else i
  }

  /** `clip[a:b]`: the frames between the normalised indices; the engine refuses a clip
      with no frames. */
  function Slice<T>(clip: seq<T>, a: int, b: int): (r: Result<seq<T>>)
    ensures r.Ok? <==> SliceIndex(a, |clip|) < SliceIndex(b, |clip|)
    ensures r.Err? ==> r.error == EmptyTrim
    ensures r.Ok? ==> r.value == clip[SliceIndex(a, |clip|)..SliceIndex(b, |clip|)]
  {
    var lo, hi := SliceIndex(a, |clip|), SliceIndex(b, |clip|);
    if lo < hi then Ok(clip[lo..hi]) else Err(EmptyTrim)
  }

  /** The checks of output_ranges, applied to the `(start, end)` left over from its first
      loop: that of the last element; with no elements, `start` was never assigned. */
  function CheckLastRange(ranges: seq<RangeItem>, numFrames: nat): (r: Result<()>)
    ensures r.Ok? <==> ranges != [] && Bounds(ranges[|ranges| - 1]).0 <= Bounds(ranges[|ranges| - 1]).1 < numFrames
    ensures ranges == [] ==> r == Err(UnboundLocalError)
    ensures r.Err? && ranges != [] ==> r.error.StartAfterEnd? || r.error.EndTooBig?
  {
    if ranges == [] then Err(UnboundLocalError)
    else
      var (start, end) := Bounds(ranges[|ranges| - 1]);
      if start > end then Err(StartAfterEnd(start, end))
      else if end >= numFrames then Err(EndTooBig(end))
      else Ok(())
  }

  /** The second loop of output_ranges: each element unpacked as `start, end`, and the
      frames `clip[start:end + 1]` appended in order. A bare int cannot be unpacked. */
  function Assemble<T>(clip: seq<T>, ranges: seq<RangeItem>): (r: Result<seq<T>>)
    ensures r.Err? ==> r.error == TypeError || r.error == EmptyTrim
    decreases |ranges|
  {
    if ranges == [] then Ok([])
    else
      match ranges[0]
      case Single(_) => Err(TypeError)
      case Pair(start, end) =>
        match Slice(clip, start, end + 1)
        case Err(e) => Err(e)
        case Ok(piece) =>
          match Assemble(clip, ranges[1..])
          case Err(e) => Err(e)
          case Ok(rest) => Ok(piece + rest)
  }

  /** output_ranges as written: check the last range, then assemble. */
  function OutputRangesOf<T>(clip: seq<T>, ranges: seq<RangeItem>): (r: Result<seq<T>>)
    ensures ranges == [] ==> r == Err(UnboundLocalError)
    ensures r.Err? ==> || r.error.UnboundLocalError? || r.error.StartAfterEnd? || r.error.EndTooBig?
                       || r.error.TypeError? || r.error.EmptyTrim?
  {
    match CheckLastRange(ranges, |clip|)
    case Err(e) => Err(e)
    case Ok(_) => Assemble(clip, ranges)
  }

  /** `p` prepended to a successful result. */
  function Prepend<T>(p: seq<T>, r: Result<seq<T>>): Result<seq<T>> {
    match r
    case Err(e) => Err(e)
    case Ok(v) => Ok(p + v)
  }

  lemma PrependNothing<T>(r: Result<seq<T>>)
    ensures Prepend([], r) == r
  {
    if r.Ok? {
      assert [] + r.value == r.value;
    }
  }

  lemma PrependTwice<T>(p: seq<T>, q: seq<T>, r: Result<seq<T>>)
    ensures Prepend(p, Prepend(q, r)) == Prepend(p + q, r)
  {
    if r.Ok? {
      assert p + (q + r.value) == (p + q) + r.value;
    }
  }

  /** output_ranges: the first loop leaves the bounds of the last element, which alone are
      checked; the second loop grows a clip that starts with one placeholder frame, which
      is dropped at the end. */
  method OutputRanges<T>(clip: seq<T>, ranges: seq<RangeItem>, blank: T) returns (result: Result<seq<T>>)
    ensures result == OutputRangesOf(clip, ranges)
  {
    var start, end, anyRange := 0, 0, false;
    var i := 0;
    while i < |ranges|
      invariant 0 <= i <= |ranges|
      invariant anyRange <==> i > 0
      invariant anyRange ==> (start, end) == Bounds(ranges[i - 1])
    {
      if ranges[i].Pair? {
        start, end := ranges[i].first, ranges[i].last;
      } else {
        start, end := ranges[i].frame, ranges[i].frame;
      }
      anyRange := true;
      i := i + 1;
    }
    if !anyRange {
      return Err(UnboundLocalError);
    }
    if start > end {
      return Err(StartAfterEnd(start, end));
    }
    if end >= |clip| {
      return Err(EndTooBig(end));
    }
    var out := [blank];
    i := 0;
    assert ranges[0..] == ranges;
    assert out[1..] == [];
    PrependNothing(Assemble(clip, ranges));
    while i < |ranges|
      invariant 0 <= i <= |ranges|
      invariant |out| >= 1 && out[0] == blank
      invariant Assemble(clip, ranges) == Prepend(out[1..], Assemble(clip, ranges[i..]))
    {
      assert ranges[i..][1..] == ranges[i + 1..];
      if ranges[i].Single? {
        return Err(TypeError);
      }
      var piece := Slice(clip, ranges[i].first, ranges[i].last + 1);
      if piece.Err? {
        return Err(piece.error);
      }
      assert (out + piece.value)[1..] == out[1..] + piece.value;
      PrependTwice(out[1..], piece.value, Assemble(clip, ranges[i + 1..]));
      out := out + piece.value;
      i := i + 1;
    }
    assert ranges[|ranges|..] == [];
    assert out[1..] + [] == out[1..];
    return Ok(out[1..]);
  }

  /** A range element that lies inside a clip of n frames: start <= end < n, start >= 0. */
  predicate InClip(r: RangeItem, n: nat) {
    var (start, end) := Bounds(r);
    0 <= start <= end < n
  }

  /** The frames the ranges are meant to select: `clip[start..end]` inclusive, in order. */
  function Selected<T>(clip: seq<T>, ranges: seq<RangeItem>): (r: seq<T>)
    requires forall i :: 0 <= i < |ranges| ==> InClip(ranges[i], |clip|)
    ensures |r| == TotalLength(ranges)
    decreases |ranges|
  {
    if ranges == [] then []
    else
      assert InClip(ranges[0], |clip|);
      var (start, end) := Bounds(ranges[0]);
      clip[start..end + 1] + Selected(clip, ranges[1..])
  }

  /** The sum of `end - start + 1` over the ranges. */
  function TotalLength(ranges: seq<RangeItem>): int
    decreases |ranges|
  {
    if ranges == [] then 0
    else
      var (start, end) := Bounds(ranges[0]);
      end - start + 1 + TotalLength(ranges[1..])
  }

  /** With tuples that all lie inside the clip, output_ranges returns exactly the inclusive
      slices, concatenated in list order; their lengths add up. */
  lemma {:induction false} AssembleInClip<T>(clip: seq<T>, ranges: seq<RangeItem>)
    requires forall i :: 0 <= i < |ranges| ==> ranges[i].Pair? && InClip(ranges[i], |clip|)
    ensures Assemble(clip, ranges) == Ok(Selected(clip, ranges))
    decreases |ranges|
  {
    if ranges != [] {
      AssembleInClip(clip, ranges[1..]);
    }
  }

  /** The same for the whole of output_ranges, whose checks then pass. */
  lemma OutputRangesInClip<T>(clip: seq<T>, ranges: seq<RangeItem>)
    requires ranges != []
    requires forall i :: 0 <= i < |ranges| ==> ranges[i].Pair? && InClip(ranges[i], |clip|)
    ensures OutputRangesOf(clip, ranges) == Ok(Selected(clip, ranges))
    ensures |OutputRangesOf(clip, ranges).value| == TotalLength(ranges)
  {
    assert InClip(ranges[|ranges| - 1], |clip|);
    AssembleInClip(clip, ranges);
  }

  /** Exactly when output_ranges succeeds: there is a last element and its bounds pass the
      checks, every element is a tuple, and every slice holds at least one frame. */
  lemma OutputRangesOkIff<T>(clip: seq<T>, ranges: seq<RangeItem>)
    ensures OutputRangesOf(clip, ranges).Ok?
            <==> CheckLastRange(ranges, |clip|).Ok?
                 && forall i :: 0 <= i < |ranges| ==>
                      ranges[i].Pair? && Slice(clip, ranges[i].first, ranges[i].last + 1).Ok?
  {
    AssembleOkIff(clip, ranges);
  }

  lemma {:induction false} AssembleOkIff<T>(clip: seq<T>, ranges: seq<RangeItem>)
    ensures Assemble(clip, ranges).Ok?
            <==> forall i :: 0 <= i < |ranges| ==>
                   ranges[i].Pair? && Slice(clip, ranges[i].first, ranges[i].last + 1).Ok?
    decreases |ranges|
  {
    if ranges != [] {
      AssembleOkIff(clip, ranges[1..]);
      assert forall i :: 1 <= i < |ranges| ==> ranges[i] == ranges[1..][i - 1];
    }
  }

  /** `x` is one of the frames of `clip`. */
  ghost predicate IsFrameOf<T>(x: T, clip: seq<T>) {
    exists j :: 0 <= j < |clip| && x == clip[j]
  }

  /** Every frame output_ranges returns is a frame of the input clip: the placeholder
      frame it starts from is not among them. */
  lemma {:induction false} AssembleFromClip<T>(clip: seq<T>, ranges: seq<RangeItem>)
    requires Assemble(clip, ranges).Ok?
    ensures forall k :: 0 <= k < |Assemble(clip, ranges).value| ==>
              IsFrameOf(Assemble(clip, ranges).value[k], clip)
    decreases |ranges|
  {
    if ranges != [] {
      var start, end := ranges[0].first, ranges[0].last;
      AssembleFromClip(clip, ranges[1..]);
      var lo := SliceIndex(start, |clip|);
      var piece := Slice(clip, start, end + 1).value;
      var rest := Assemble(clip, ranges[1..]).value;
      var out := Assemble(clip, ranges).value;
      assert out == piece + rest;
      forall k | 0 <= k < |out|
        ensures IsFrameOf(out[k], clip)
      {
        if k < |piece| {
          assert out[k] == clip[lo + k];
        } else {
          assert out[k] == rest[k - |piece|];
        }
      }
    }
  }

  /** As written, an earlier range is never checked: with ten frames, `[(0, 20), (0, 0)]`
      passes although frame 20 does not exist, and the first slice is silently cut to the
      ten frames there are. */
  lemma OnlyLastRangeChecked()
    ensures var clip := seq(10, i => i);
            OutputRangesOf(clip, [Pair(0, 20), Pair(0, 0)]) == Ok(clip + [0])
  {
    var clip := seq(10, i => i);
    var ranges := [Pair(0, 20), Pair(0, 0)];
    assert ranges[1..] == [Pair(0, 0)];
    assert [Pair(0, 0)][1..] == [];
    assert clip[0] == 0;
    assert clip[0..1] == [0];
    assert Slice(clip, 0, 1) == Ok([0]);
    assert Assemble(clip, []) == Ok([]);
    assert [0] + [] == [0];
    assert Assemble(clip, [Pair(0, 0)]) == Ok([0]);
    assert clip[0..10] == clip;
    assert Slice(clip, 0, 21) == Ok(clip);
    assert Assemble(clip, ranges) == Ok(clip + [0]);
  }

  /** As written, a bare frame number passes the first loop but cannot be unpacked in the
      second: any list holding one fails with TypeError, if it fails no earlier. */
  lemma BareFrameRejected<T>(clip: seq<T>, ranges: seq<RangeItem>, i: nat)
    requires i < |ranges| && ranges[i].Single?
    ensures OutputRangesOf(clip, ranges).Err?
  {
    AssembleOkIff(clip, ranges);
  }

  /** A single bare frame number inside the clip is refused with TypeError. */
  lemma SingleFrameIsTypeError<T>(clip: seq<T>, frame: int)
    requires 0 <= frame < |clip|
    ensures OutputRangesOf(clip, [Single(frame)]) == Err(TypeError)
  {
  }

  /** The checks of output_ranges applied to one element. */
  function CheckRange(r: RangeItem, numFrames: nat): Result<()> {
    var (start, end) := Bounds(r);
    if start > end then Err(StartAfterEnd(start, end))
    else if end >= numFrames then Err(EndTooBig(end))
    else Ok(())
  }

  /** The checks applied to every element, in order; the first failure is reported. */
  function CheckEveryRange(ranges: seq<RangeItem>, numFrames: nat): (r: Result<()>)
    ensures r.Ok? <==> forall i :: 0 <= i < |ranges| ==> CheckRange(ranges[i], numFrames).Ok?
    decreases |ranges|
  {
    if ranges == [] then Ok(())
    else
      match CheckRange(ranges[0], numFrames)
      case Err(e) => Err(e)
      case Ok(_) =>
        var rest := CheckEveryRange(ranges[1..], numFrames);
        assert forall i :: 1 <= i < |ranges| ==> ranges[i] == ranges[1..][i - 1];
        rest
  }

  /** The second loop with both kinds of element accepted, as the first loop treats them. */
  function AssembleBounds<T>(clip: seq<T>, ranges: seq<RangeItem>): Result<seq<T>>
    decreases |ranges|
  {
    if ranges == [] then Ok([])
    else
      var (start, end) := Bounds(ranges[0]);
      match Slice(clip, start, end + 1)
      case Err(e) => Err(e)
      case Ok(piece) =>
        match AssembleBounds(clip, ranges[1..])
        case Err(e) => Err(e)
        case Ok(rest) => Ok(piece + rest)
  }

  /** output_ranges as evidently intended: every element checked, a bare frame number taken
      as the one-frame range it stands for. */
  function OutputRangesChecked<T>(clip: seq<T>, ranges: seq<RangeItem>): Result<seq<T>> {
    if ranges == [] then Err(UnboundLocalError)
    else
      match CheckEveryRange(ranges, |clip|)
      case Err(e) => Err(e)
      case Ok(_) => AssembleBounds(clip, ranges)
  }

  /** The corrected version refuses a bad range wherever it stands in the list. */
  lemma CheckedRefusesAnyBadRange<T>(clip: seq<T>, ranges: seq<RangeItem>, i: nat)
    requires i < |ranges|
    requires Bounds(ranges[i]).0 > Bounds(ranges[i]).1 || Bounds(ranges[i]).1 >= |clip|
    ensures OutputRangesChecked(clip, ranges).Err?
  {
    assert CheckRange(ranges[i], |clip|).Err?;
  }

  lemma {:induction false} AssembleBoundsInClip<T>(clip: seq<T>, ranges: seq<RangeItem>)
    requires forall i :: 0 <= i < |ranges| ==> InClip(ranges[i], |clip|)
    ensures AssembleBounds(clip, ranges) == Ok(Selected(clip, ranges))
    decreases |ranges|
  {
    if ranges != [] {
      AssembleBoundsInClip(clip, ranges[1..]);
    }
  }

  /** The corrected version returns exactly the selected frames for any list of tuples and
      bare frame numbers that lie inside the clip. */
  lemma CheckedSelects<T>(clip: seq<T>, ranges: seq<RangeItem>)
    requires ranges != []
    requires forall i :: 0 <= i < |ranges| ==> InClip(ranges[i], |clip|)
    ensures OutputRangesChecked(clip, ranges) == Ok(Selected(clip, ranges))
  {
    AssembleBoundsInClip(clip, ranges);
  }

  // ---------------------------------------------------------------------------
  // screengen
  // ---------------------------------------------------------------------------

  /** A list comprehension `[f(x) for x in xs]` whose `f` may raise: the list of results,
      or the exception of the first element that raises. */
  function MapOrFail<A, B>(f: A -> Result<B>, xs: seq<A>): (r: Result<seq<B>>)
    ensures r.Ok? <==> forall k :: 0 <= k < |xs| ==> f(xs[k]).Ok?
    ensures r.Ok? ==> |r.value| == |xs| && forall k :: 0 <= k < |xs| ==> f(xs[k]) == Ok(r.value[k])
    ensures r.Err? ==> exists k :: 0 <= k < |xs| && f(xs[k]) == Err(r.error)
                                   && forall j :: 0 <= j < k ==> f(xs[j]).Ok?
    decreases |xs|
  {
    if xs == [] then Ok([])
    else
      var head := f(xs[0]);
      if head.Err? then Err(head.error)
      else
        var rest := MapOrFail(f, xs[1..]);
        assert forall k :: 1 <= k < |xs| ==> xs[k] == xs[1..][k - 1];
        if rest.Err? then
          var k :| 0 <= k < |xs[1..]| && f(xs[1..][k]) == Err(rest.error)
                   && forall j :: 0 <= j < k ==> f(xs[1..][j]).Ok?;
          assert f(xs[k + 1]) == Err(rest.error);
          assert forall j :: 0 <= j < k + 1 ==> f(xs[j]).Ok?;
          Err(rest.error)
        else Ok([head.value] + rest.value)
  }

  /** Comprehensions over two lists whose elements give equal results give equal results. */
  lemma {:induction false} MapOrFailPointwise<A, B, C>(f: A -> Result<C>, xs: seq<A>, g: B -> Result<C>, ys: seq<B>)
    requires |xs| == |ys|
    requires forall k :: 0 <= k < |xs| ==> f(xs[k]) == g(ys[k])
    ensures MapOrFail(f, xs) == MapOrFail(g, ys)
    decreases |xs|
  {
    if xs != [] {
      assert forall k :: 0 <= k < |xs| - 1 ==> xs[1..][k] == xs[k + 1] && ys[1..][k] == ys[k + 1];
      MapOrFailPointwise(f, xs[1..], g, ys[1..]);
    }
  }

  /** `[v.split(delim)[0] for v in lines]`: every line split before any is converted. */
  function FirstFields(lines: seq<string>, delim: Option<string>): (r: Result<seq<string>>)
    ensures r.Ok? <==> forall k :: 0 <= k < |lines| ==> FirstField(lines[k], delim).Ok?
    ensures r.Ok? ==> |r.value| == |lines|
                      && forall k :: 0 <= k < |lines| ==> FirstField(lines[k], delim) == Ok(r.value[k])
    ensures r.Err? ==> r.error.EmptySeparator? || r.error.IndexError?
  {
    MapOrFail(line => FirstField(line, delim), lines)
  }

  /** `[int(x.strip()) for x in fields]`. */
  function ToInts(fields: seq<string>): (r: Result<seq<int>>)
    ensures r.Ok? <==> forall k :: 0 <= k < |fields| ==> ParseInt(Strip(fields[k])).Ok?
    ensures r.Ok? ==> |r.value| == |fields|
                      && forall k :: 0 <= k < |fields| ==> ParseInt(Strip(fields[k])) == Ok(r.value[k])
    ensures r.Err? ==> r.error.InvalidLiteral?
  {
    MapOrFail(field => ParseInt(Strip(field)), fields)
  }

  /** The frame numbers read from a file's lines: the text before the first delimiter, with
      the whitespace around it stripped, as an int. */
  function ParseFrameFile(lines: seq<string>, delim: Option<string>): (r: Result<seq<int>>)
    ensures r.Ok? ==> |r.value| == |lines|
    ensures r.Err? ==> r.error.EmptySeparator? || r.error.IndexError? || r.error.InvalidLiteral?
  {
    var split := FirstFields(lines, delim);
    if split.Err? then Err(split.error) else ToInts(split.value)
  }

  /** One line of a frame-number file read on its own: `int(line.split(delim)[0].strip())`. */
  function LineFrame(line: string, delim: Option<string>): (r: Result<int>)
    ensures r.Err? ==> r.error.EmptySeparator? || r.error.IndexError? || r.error.InvalidLiteral?
    ensures delim == Some([]) ==> r == Err(EmptySeparator)
    ensures delim.Some? && delim.value != [] && r.Err? ==> r.error.InvalidLiteral?
  {
    match FirstField(line, delim)
    case Err(e) => Err(e)
    case Ok(field) => ParseInt(Strip(field))
  }

  /** Once every line splits, reading the file is reading it line by line. */
  lemma FrameFileAsLines(lines: seq<string>, delim: Option<string>)
    requires FirstFields(lines, delim).Ok?
    ensures ParseFrameFile(lines, delim) == MapOrFail(line => LineFrame(line, delim), lines)
  {
    var fields := FirstFields(lines, delim).value;
    forall k | 0 <= k < |lines|
      ensures LineFrame(lines[k], delim) == ParseInt(Strip(fields[k]))
    {
      assert FirstField(lines[k], delim) == Ok(fields[k]);
    }
    MapOrFailPointwise(line => LineFrame(line, delim), lines, field => ParseInt(Strip(field)), fields);
  }

  /** A frame-number file yields one frame per line, in line order, each the int of the
      stripped first field of its line. */
  lemma FrameFileLineByLine(lines: seq<string>, delim: Option<string>)
    requires ParseFrameFile(lines, delim).Ok?
    ensures |ParseFrameFile(lines, delim).value| == |lines|
    ensures forall k :: 0 <= k < |lines| ==> LineFrame(lines[k], delim) == Ok(ParseFrameFile(lines, delim).value[k])
  {
    FrameFileAsLines(lines, delim);
  }

  /** A frame-number file parses exactly when each of its lines does. */
  lemma FrameFileOkIff(lines: seq<string>, delim: Option<string>)
    ensures ParseFrameFile(lines, delim).Ok? <==> forall k :: 0 <= k < |lines| ==> LineFrame(lines[k], delim).Ok?
  {
    if FirstFields(lines, delim).Ok? {
      FrameFileAsLines(lines, delim);
    } else {
      var k :| 0 <= k < |lines| && FirstField(lines[k], delim).Err?;
      assert LineFrame(lines[k], delim).Err?;
    }
  }

  /** With a space as delimiter, a line that starts with a space has an empty first field,
      and int("") fails. */
  lemma LeadingSpaceLineRejected(line: string)
    requires line != [] && line[0] == ' '
    ensures LineFrame(line, Some(" ")) == Err(InvalidLiteral(""))
  {
    assert Find(line, " ", 0) == 0 by {
      assert line[0..1] == " ";
    }
    assert FirstField(line, Some(" ")) == Ok("");
    assert ParseInt(Strip("")) == Err(InvalidLiteral("")) by {
      assert LStrip("") == "";
      assert RStrip("") == "";
    }
  }

  /** So a frame-number file holding such a line is refused. */
  lemma LeadingSpaceFileRejected(lines: seq<string>, i: nat)
    requires i < |lines| && lines[i] != [] && lines[i][0] == ' '
    ensures ParseFrameFile(lines, Some(" ")).Err?
  {
    LeadingSpaceLineRejected(lines[i]);
    FrameFileOkIff(lines, Some(" "));
  }

  /** The `frame_numbers` argument of screengen, by its Python type. */
  datatype FrameNumbers =
    | PathArg(path: string)       // a str
    | ListArg(frames: seq<int>)   // a list
    | NoneArg                     // None: ask the frame sampler
    | OtherArg                    // anything else

  /** The frames screengen will export. `isFile` says whether `./path` names a file,
      `lines` are that file's lines, and `sampled` is what the frame sampler returns
      for the clip. */
  function SelectScreens(arg: FrameNumbers, isFile: bool, lines: seq<string>, delim: Option<string>,
                         sampled: seq<int>): (r: Result<seq<int>>)
    ensures arg.PathArg? && isFile ==> r == ParseFrameFile(lines, delim)
    ensures arg.ListArg? ==> r == Ok(arg.frames)
    ensures arg.NoneArg? ==> r == Ok(sampled)
    ensures arg.OtherArg? || (arg.PathArg? && !isFile) ==> r == Err(TypeError)
  {
    if arg.PathArg? && isFile then ParseFrameFile(lines, delim)
    else if arg.ListArg? then Ok(arg.frames)
    else if arg.NoneArg? then Ok(sampled)
    else Err(TypeError)
  }

  /** The number in a screenshot's file name: the integer zero-padded to three characters. */
  function ShotNumber(i: int): (r: string)
    ensures |r| == if |IntToString(i)| >= 3 then |IntToString(i)| else 3
  {
    ZFill(IntToString(i), 3)
  }

  /** `./{folder}/{prefix}{i:03d}.png`. */
  function ShotPath(folder: string, prefix: string, i: int): (r: string)
    ensures r == "./" + folder + "/" + prefix + ShotNumber(i) + ".png"
    ensures |r| == |folder| + |prefix| + |ShotNumber(i)| + 7
  {
    "./" + folder + "/" + prefix + ShotNumber(i) + ".png"
  }

  /** Screenshot numbers are at least three characters long, digits only when not
      negative, and read back as the number they were written from. */
  lemma ShotNumberFormat(i: int)
    ensures |ShotNumber(i)| >= 3
    ensures i >= 0 ==> AllDigits(ShotNumber(i))
    ensures ParseInt(ShotNumber(i)) == Ok(i)
  {
    ParseZeroPadded(i, 3);
    if i >= 0 {
      ZFillDigits(IntToString(i), 3);
    }
  }

  /** Two numbers written alike are the same number. */
  lemma ShotNumberInjective(i: int, j: int)
    requires ShotNumber(i) == ShotNumber(j)
    ensures i == j
  {
    ShotNumberFormat(i);
    ShotNumberFormat(j);
  }

  /** Different screenshot numbers give different file names, so no screenshot of a run
      overwrites another. */
  lemma ShotPathsDistinct(folder: string, prefix: string, i: int, j: int)
    requires i != j
    ensures ShotPath(folder, prefix, i) != ShotPath(folder, prefix, j)
  {
    var head := "./" + folder + "/" + prefix;
    var ni, nj := ShotNumber(i), ShotNumber(j);
    var a, b := head + ni + ".png", head + nj + ".png";
    assert ShotPath(folder, prefix, i) == a && ShotPath(folder, prefix, j) == b;
    if a == b {
      assert |ni| == |nj|;
      assert ni == a[|head|..|head| + |ni|];
      assert nj == b[|head|..|head| + |nj|];
      ShotNumberInjective(i, j);
    }
  }

  /** The matrix handed to the RGB conversion: 2 (unspecified) becomes 1 (BT.709), every
      other value passes through. */
  function RemapMatrix(matrix: int): (r: int)
    ensures r != 2
    ensures matrix != 2 ==> r == matrix
    ensures matrix == 2 ==> r == 1
  {
    if matrix == 2 then 1 else matrix
  }

  /** One screenshot: the file, the frame written to it and the matrix used to convert it. */
  datatype Screenshot = Screenshot(path: string, frame: int, matrixIn: int)

  /** The screenshots of the frames `screens`, numbered from `start`: the k-th goes to
      the file numbered `start + k`. */
  function ShotsFor(folder: string, prefix: string, matrix: int, screens: seq<int>, start: int): (r: seq<Screenshot>)
    ensures |r| == |screens|
  {
    seq(|screens|, k requires 0 <= k < |screens| =>
      Screenshot(ShotPath(folder, prefix, start + k), screens[k], RemapMatrix(matrix)))
  }

  /** Exporting one more frame appends its screenshot. */
  lemma ShotsForStep(folder: string, prefix: string, matrix: int, screens: seq<int>, start: int, k: nat)
    requires k < |screens|
    ensures ShotsFor(folder, prefix, matrix, screens[..k + 1], start)
            == ShotsFor(folder, prefix, matrix, screens[..k], start)
               + [Screenshot(ShotPath(folder, prefix, start + k), screens[k], RemapMatrix(matrix))]
  {
    var longer := ShotsFor(folder, prefix, matrix, screens[..k + 1], start);
    var shorter := ShotsFor(folder, prefix, matrix, screens[..k], start);
    forall j | 0 <= j < k
      ensures longer[j] == shorter[j]
    {
      assert screens[..k + 1][j] == screens[..k][j];
    }
  }

  /** No two screenshots of one run share a file name. */
  lemma ShotsHaveDistinctPaths(folder: string, prefix: string, matrix: int, screens: seq<int>, start: int)
    ensures var shots := ShotsFor(folder, prefix, matrix, screens, start);
            forall j, k :: 0 <= j < k < |shots| ==> shots[j].path != shots[k].path
  {
    var shots := ShotsFor(folder, prefix, matrix, screens, start);
    forall j, k | 0 <= j < k < |shots|
      ensures shots[j].path != shots[k].path
    {
      ShotPathsDistinct(folder, prefix, start + j, start + k);
    }
  }

  /** The export loop of screengen: the screenshot of the i-th frame, counting from
      `start`, goes to `./{folder}/{prefix}{i:03d}.png`; a frame the clip does not have
      stops the loop with the engine's error, after the screenshots before it. */
  method ExportScreens(numFrames: nat, matrix: int, folder: string, prefix: string,
                       screens: seq<int>, start: int)
    returns (written: seq<Screenshot>, failure: Option<Error>)
    ensures |written| <= |screens|
    ensures written == ShotsFor(folder, prefix, matrix, screens[..|written|], start)
    ensures forall k :: 0 <= k < |written| ==> 0 <= screens[k] < numFrames
    ensures failure.None? <==> |written| == |screens|
    ensures failure.Some? ==> failure.value == FrameOutOfRange(screens[|written|])
                              && !(0 <= screens[|written|] < numFrames)
  {
    written := [];
    var k := 0;
    while k < |screens|
      invariant 0 <= k <= |screens| && |written| == k
      invariant written == ShotsFor(folder, prefix, matrix, screens[..k], start)
      invariant forall j :: 0 <= j < k ==> 0 <= screens[j] < numFrames
    {
      var i := start + k;
      var filename := ShotPath(folder, prefix, i);
      var matrixIn := RemapMatrix(matrix);
      var num := screens[k];
      if !(0 <= num < numFrames) {
        return written, Some(FrameOutOfRange(num));
      }
      ShotsForStep(folder, prefix, matrix, screens, start, k);
      assert written + [Screenshot(filename, num, matrixIn)] == ShotsFor(folder, prefix, matrix, screens[..k + 1], start);
      written := written + [Screenshot(filename, num, matrixIn)];
      k := k + 1;
    }
    return written, None;
  }

  /** screengen: choose the frames, then export them; a bad `frame_numbers` argument or an
      unreadable frame file fails before anything is written. */
  method ScreenGen(numFrames: nat, matrix: int, folder: string, prefix: string,
                   frameNumbers: FrameNumbers, isFile: bool, lines: seq<string>,
                   sampled: seq<int>, start: int, delim: Option<string>)
    returns (written: seq<Screenshot>, failure: Option<Error>)
    ensures SelectScreens(frameNumbers, isFile, lines, delim, sampled).Err? ==>
              written == [] && failure == Some(SelectScreens(frameNumbers, isFile, lines, delim, sampled).error)
    ensures SelectScreens(frameNumbers, isFile, lines, delim, sampled).Ok? ==>
              var screens := SelectScreens(frameNumbers, isFile, lines, delim, sampled).value;
              && |written| <= |screens|
              && written == ShotsFor(folder, prefix, matrix, screens[..|written|], start)
              && (forall k :: 0 <= k < |written| ==> 0 <= screens[k] < numFrames)
              && (failure.None? <==> |written| == |screens|)
              && (failure.Some? ==> failure.value == FrameOutOfRange(screens[|written|])
                                    && !(0 <= screens[|written|] < numFrames))
  {
    var screens := SelectScreens(frameNumbers, isFile, lines, delim, sampled);
    if screens.Err? {
      return [], Some(screens.error);
    }
    written, failure := ExportScreens(numFrames, matrix, folder, prefix, screens.value, start);
  }
}
