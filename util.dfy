/** The helpers of ssfunc/util.py: episode numbers from file names, rounding to a base,
    the peak value of a bit depth, 8-bit scaling, the rounded median of a frame range,
    and the scan for the first desynchronised frame. */
module Util {
  import opened Wrappers
  import opened PyNum
  import opened PyStr

  // ---------------------------------------------------------------------------
  // The pattern `(\b|E|_)([0-9]{1,3})(\b|_|v)` of get_episode_number.
  // ---------------------------------------------------------------------------

  /** A character of the class `\w`, restricted to ASCII. */
  predicate IsWordChar(c: char) {
    'a' <= c <= 'z' || 'A' <= c <= 'Z' || IsDigit(c) || c == '_'
  }

  /** `\b` holds at position p: exactly one of the characters around p is a word character. */
  predicate AtBoundary(s: string, p: nat)
    requires p <= |s|
  {
    (p > 0 && IsWordChar(s[p - 1])) != (p < |s| && IsWordChar(s[p]))
  }

  /** A match of the pattern: where it starts and how long each of its three groups is. */
  datatype Match = Match(start: nat, prefixLen: nat, digitCount: nat, suffixLen: nat) {
    function DigitsStart(): nat { start + prefixLen }
    function DigitsEnd(): nat { start + prefixLen + digitCount }
    function End(): nat { start + prefixLen + digitCount + suffixLen }
  }

  /** Group 1 `(\b|E|_)` matches the prefixLen characters at p. */
  predicate PrefixOk(s: string, p: nat, prefixLen: nat) {
    p <= |s|
    && ((prefixLen == 0 && AtBoundary(s, p))
        || (prefixLen == 1 && p < |s| && (s[p] == 'E' || s[p] == '_')))
  }

  /** Group 2 `([0-9]{1,3})` matches the k characters at q. */
  predicate DigitsOk(s: string, q: nat, k: nat) {
    1 <= k <= 3 && q + k <= |s| && AllDigits(s[q..q + k])
  }

  /** Group 3 `(\b|_|v)` matches the suffixLen characters at e. */
  predicate SuffixOk(s: string, e: nat, suffixLen: nat) {
    e <= |s|
    && ((suffixLen == 0 && AtBoundary(s, e))
        || (suffixLen == 1 && e < |s| && (s[e] == '_' || s[e] == 'v')))
  }

  /** Groups 2 and 3 match where m puts them. */
  predicate TailOk(s: string, m: Match) {
    DigitsOk(s, m.DigitsStart(), m.digitCount) && SuffixOk(s, m.DigitsEnd(), m.suffixLen)
  }

  /** The whole pattern matches where m puts its groups. */
  predicate ValidMatch(s: string, m: Match) {
    PrefixOk(s, m.start, m.prefixLen) && TailOk(s, m)
  }

  /** Group 3 tried in the engine's order at e: `\b`, then `_`, then `v`. */
  function TrySuffix(s: string, e: nat): (r: Option<nat>)
    requires e <= |s|
    ensures r.Some? ==> SuffixOk(s, e, r.value)
    ensures r.None? ==> forall n: nat :: !SuffixOk(s, e, n)
  {
    if AtBoundary(s, e) then Some(0)
    else if e < |s| && (s[e] == '_' || s[e] == 'v') then Some(1)
    else None
  }

  /** Groups 2 and 3 after k digits at q, for a match starting at p. */
  function TryEnd(s: string, p: nat, q: nat, k: nat): (r: Option<Match>)
    requires p <= q <= |s| && q - p <= 1 && 1 <= k <= 3
    ensures r.Some? ==> r.value.start == p && r.value.prefixLen == q - p && r.value.digitCount == k
    ensures r.Some? ==> TailOk(s, r.value)
    ensures r.None? ==> forall m: Match ::
      m.start == p && m.prefixLen == q - p && m.digitCount == k ==> !TailOk(s, m)
  {
    if DigitsOk(s, q, k) then
      var suffix := TrySuffix(s, q + k);
      if suffix.Some? then Some(Match(p, q - p, k, suffix.value)) else None
    else None
  }

  /** Group 2 tried greedily: three digits, then two, then one. */
  function TryDigits(s: string, p: nat, q: nat): (r: Option<Match>)
    requires p <= q <= |s| && q - p <= 1
    ensures r.Some? ==> r.value.start == p && r.value.prefixLen == q - p && TailOk(s, r.value)
    ensures r.None? ==> forall m: Match :: m.start == p && m.prefixLen == q - p ==> !TailOk(s, m)
  {
    var three := TryEnd(s, p, q, 3);
    if three.Some? then three
    else
      var two := TryEnd(s, p, q, 2);
      if two.Some? then two else TryEnd(s, p, q, 1)
  }

  /** The pattern tried at position p, group 1 in the engine's order: `\b`, then `E`, then `_`. */
  function TryAt(s: string, p: nat): (r: Option<Match>)
    requires p <= |s|
    ensures r.Some? ==> r.value.start == p && ValidMatch(s, r.value)
    ensures r.None? ==> forall m: Match :: m.start == p ==> !ValidMatch(s, m)
  {
    var viaBoundary := if AtBoundary(s, p) then TryDigits(s, p, p) else None;
    if viaBoundary.Some? then viaBoundary
    else if p < |s| && s[p] == 'E' then TryDigits(s, p, p + 1)
    else if p < |s| && s[p] == '_' then TryDigits(s, p, p + 1)
    else None
  }

  /** `re.search`: the match at the leftmost position from `from` on where the pattern matches. */
  function Search(s: string, from: nat): (r: Option<Match>)
    requires from <= |s| + 1
    ensures r.Some? ==> from <= r.value.start && ValidMatch(s, r.value)
    ensures r.Some? ==> forall m: Match :: from <= m.start < r.value.start ==> !ValidMatch(s, m)
    ensures r.None? ==> forall m: Match :: from <= m.start ==> !ValidMatch(s, m)
    decreases |s| + 1 - from
  {
    if from > |s| then None
    else
      var here := TryAt(s, from);
      if here.Some? then here else Search(s, from + 1)
  }

  /** At any one position the pattern matches in at most one way: the groups are forced. */
  lemma MatchUnique(s: string, m1: Match, m2: Match)
    requires ValidMatch(s, m1) && ValidMatch(s, m2) && m1.start == m2.start
    ensures m1 == m2
  {
    MatchDigits(s, m1);
    MatchDigits(s, m2);
  }

  /** Group 2 of a match is a run of digits that group 3 ends: the character after it, if
      any, is not a digit, since neither `\b` nor `_` nor `v` can follow a digit that is
      followed by another. */
  lemma MatchDigits(s: string, m: Match)
    requires ValidMatch(s, m)
    ensures forall j :: m.DigitsStart() <= j < m.DigitsEnd() ==> IsDigit(s[j])
    ensures m.DigitsEnd() == |s| || !IsDigit(s[m.DigitsEnd()])
  {
    var q, e := m.DigitsStart(), m.DigitsEnd();
    var digits := s[q..q + m.digitCount];
    assert AllDigits(digits);
    forall j | q <= j < e
      ensures IsDigit(s[j])
    {
      assert s[j] == digits[j - q];
      assert IsDigit(digits[j - q]);
    }
    if e < |s| {
      assert IsWordChar(s[e - 1]);
      if m.suffixLen == 0 {
        assert AtBoundary(s, e);
        assert !IsWordChar(s[e]);
      } else {
        assert s[e] == '_' || s[e] == 'v';
      }
    }
  }

  /** The number of consecutive digits of t from p on, at most `cap`: `[0-9]{1,cap}` taken greedily. */
  function DigitRun(t: string, p: nat, cap: nat): (n: nat)
    requires p <= |t|
    ensures n <= cap && p + n <= |t| && AllDigits(t[p..p + n])
    decreases cap
  {
    if cap == 0 || p == |t| || !IsDigit(t[p]) then 0
    else
      var n := 1 + DigitRun(t, p + 1, cap - 1);
      assert t[p..p + n] == [t[p]] + t[p + 1..p + n];
      n
  }

  /** `re.search(r"([0-9]{1,3})", t).group(0)` for the part of t from `from` on. */
  function FirstDigitRun(t: string, from: nat): (r: Option<string>)
    requires from <= |t|
    ensures r.Some? ==> 1 <= |r.value| <= 3 && AllDigits(r.value)
    decreases |t| - from
  {
    if from == |t| then None
    else if IsDigit(t[from]) then Some(t[from..from + DigitRun(t, from, 3)])
    else FirstDigitRun(t, from + 1)
  }

  /** A digit run that ends at the end of t or before a non-digit is taken whole. */
  lemma {:induction false} DigitRunWhole(t: string, p: nat, k: nat, cap: nat)
    requires p + k <= |t| && k <= cap && AllDigits(t[p..p + k])
    requires p + k == |t| || !IsDigit(t[p + k]) || k == cap
    ensures DigitRun(t, p, cap) == k
    decreases k
  {
    if k > 0 {
      assert IsDigit(t[p..p + k][0]);
      assert t[p + 1..p + k] == t[p..p + k][1..];
      DigitRunWhole(t, p + 1, k - 1, cap - 1);
    }
  }

  /** The second search of get_episode_number finds, in the text of a match, exactly group 2. */
  lemma GroupZeroDigits(s: string, m: Match)
    requires ValidMatch(s, m)
    ensures FirstDigitRun(s[m.start..m.End()], 0) == Some(s[m.DigitsStart()..m.DigitsEnd()])
  {
    MatchDigits(s, m);
    var t := s[m.start..m.End()];
    var pl, k := m.prefixLen, m.digitCount;
    var group := s[m.DigitsStart()..m.DigitsEnd()];
    forall j | 0 <= j < k
      ensures t[pl + j] == group[j] && IsDigit(t[pl + j])
    {
      assert t[pl + j] == s[m.DigitsStart() + j];
    }
    assert t[pl..pl + k] == group;
    assert pl + k == |t| || t[pl + k] == s[m.DigitsEnd()];
    DigitRunWhole(t, pl, k, 3);
    if pl == 1 {
      assert t[0] == s[m.start];
      assert FirstDigitRun(t, 0) == FirstDigitRun(t, 1);
    }
  }

  /** At most three digits stand for a number below 1000. */
  lemma EpisodeBelowThousand(episode: string)
    requires 1 <= |episode| <= 3 && AllDigits(episode)
    ensures DecimalValue(episode) < 1000
  {
    DecimalBelowPow10(episode);
    assert Pow10(1) == 10 && Pow10(2) == 100 && Pow10(3) == 1000;
  }

  /** get_episode_number: the first 1-3 digit group of the file path, zero-padded to `zfill`
      characters and, when `final` is given, no larger than it. */
  function GetEpisodeNumber(infile: Option<string>, zfill: int, final: Option<int>): (r: Result<string>)
    ensures infile.None? <==> r == Err(TypeError)
    ensures r.Err? ==> r.error == TypeError || r.error == AttributeError || r.error == EpisodeNotFound
    ensures r.Ok? ==> |r.value| >= 1 && |r.value| >= zfill && AllDigits(r.value)
    ensures r.Ok? ==> DecimalValue(r.value) < 1000
    ensures r.Ok? && final.Some? ==> DecimalValue(r.value) <= final.value
  {
    if infile.None? then Err(TypeError)
    else
      var s := infile.value;
      match Search(s, 0)
      case None => Err(AttributeError)
      case Some(m) =>
        var partial := s[m.start..m.End()];
        match FirstDigitRun(partial, 0)
        case None => Err(AttributeError)
        case Some(episode) =>
          ZFillDigits(episode, zfill);
          EpisodeBelowThousand(episode);
          if final.Some? then
            ParseDigits(episode);
            match ParseInt(episode)
            case Err(e) => Err(e)
            case Ok(episodeInt) =>
              if episodeInt <= final.value then Ok(ZFill(episode, zfill)) else Err(EpisodeNotFound)
          else Ok(ZFill(episode, zfill))
  }

  /** Without a match of the pattern anywhere, get_episode_number fails calling `.group` on
      `None`; with one, it does not. */
  lemma EpisodeMissingIffNoMatch(s: string, zfill: int, final: Option<int>)
    ensures GetEpisodeNumber(Some(s), zfill, final) == Err(AttributeError)
            <==> forall m: Match :: !ValidMatch(s, m)
  {
    var r := Search(s, 0);
    if r.Some? {
      var m := r.value;
      GroupZeroDigits(s, m);
      assert FirstDigitRun(s[m.start..m.End()], 0).Some?;
      assert GetEpisodeNumber(Some(s), zfill, final) != Err(AttributeError);
      assert !forall m': Match :: !ValidMatch(s, m');
    } else {
      assert GetEpisodeNumber(Some(s), zfill, final) == Err(AttributeError);
    }
  }

  /** The episode is group 2 of the leftmost match, padded with zeros, unless `final` is given
      and the number exceeds it. */
  lemma EpisodeIsLeftmostMatch(s: string, m: Match, zfill: int, final: Option<int>)
    requires ValidMatch(s, m)
    requires forall m': Match :: m'.start < m.start ==> !ValidMatch(s, m')
    ensures var episode := s[m.DigitsStart()..m.DigitsEnd()];
            GetEpisodeNumber(Some(s), zfill, final)
            == if final.Some? && DecimalValue(episode) > final.value then Err(EpisodeNotFound)
               else Ok(ZFill(episode, zfill))
  {
    var found := Search(s, 0);
    assert found.Some?;
    MatchUnique(s, found.value, m);
    assert found == Some(m);
    var episode := s[m.DigitsStart()..m.DigitsEnd()];
    GroupZeroDigits(s, m);
    assert FirstDigitRun(s[m.start..m.End()], 0) == Some(episode);
    ParseDigits(episode);
    assert ParseInt(episode) == Ok(DecimalValue(episode) as int);
  }

  // ---------------------------------------------------------------------------
  // betterround, peak, scale
  // ---------------------------------------------------------------------------

  function AbsInt(x: int): nat {
    if x < 0 then -x else x
  }

  /** betterround: `base * round(input / base)`, a multiple of base. */
  function BetterRound(input: real, base: int): (r: Result<int>)
    ensures base == 0 <==> r == Err(ZeroDivisionError)
    ensures base != 0 ==> r.Ok? && r.value % base == 0
  {
    if base == 0 then Err(ZeroDivisionError)
    else
      var n := RoundHalfEven(input / base as real);
      MultipleMod(base, n);
      Ok(base * n)
  }

  lemma ProductNonNegative(x: real, y: real)
    requires x >= 0.0 && y >= 0.0
    ensures x * y >= 0.0
  {
  }

  /** Moving n at most one half away from x moves b * n at most half of |b| away from b * x. */
  lemma ScaledHalfStep(b: real, x: real, n: real)
    requires -0.5 <= n - x <= 0.5
    ensures var c := if b < 0.0 then -b else b;
            -c / 2.0 <= b * n - b * x <= c / 2.0
  {
    var c := if b < 0.0 then -b else b;
    var d := n - x;
    ProductNonNegative(c, 0.5 - d);
    ProductNonNegative(c, d + 0.5);
    assert c * (0.5 - d) == c / 2.0 - c * d;
    assert c * (d + 0.5) == c * d + c / 2.0;
    assert b * n - b * x == b * d;
    if b < 0.0 {
      assert b * d == -(c * d);
    } else {
      assert b * d == c * d;
    }
  }

  /** betterround gives the multiple of base nearest to the input: at most half of |base| away. */
  lemma BetterRoundNearest(input: real, base: int)
    requires base != 0
    ensures var r := BetterRound(input, base).value;
            input - AbsInt(base) as real / 2.0 <= r as real <= input + AbsInt(base) as real / 2.0
  {
    var b := base as real;
    var x := input / b;
    var n := RoundHalfEven(x);
    ScaledHalfStep(b, x, n as real);
    assert b * x == input;
    assert (base * n) as real == b * (n as real);
    assert BetterRound(input, base).value == base * n;
    assert AbsInt(base) as real == if b < 0.0 then -b else b;
  }

  /** On a tie, betterround takes the multiple of base whose quotient is even, as round()
      does: betterround(6.0, 4) is 8, not 4. */
  lemma BetterRoundTie(input: real, base: int)
    requires base != 0
    ensures var q := input / base as real;
            q - q.Floor as real == 0.5 ==> (BetterRound(input, base).value / base) % 2 == 0
  {
    var n := RoundHalfEven(input / base as real);
    assert BetterRound(input, base).value == base * n;
    assert (base * n) / base == n;
  }

  /** mod4 rounding of 6: the quotient 1.5 is a tie, and the even quotient 2 gives 8. */
  lemma BetterRoundSixByFour()
    ensures BetterRound(6.0, 4) == Ok(8)
  {
    RoundHalfEvenUnique(1.5, 2);
  }

  /** With the default base 1, betterround is Python's round(). */
  lemma BetterRoundDefaultIsRound(input: real)
    ensures BetterRound(input, 1) == Ok(RoundHalfEven(input))
  {
  }

  /** The number of binary digits of n: Python `n.bit_length()`. */
  function BitLength(n: nat): nat {
    if n == 0 then 0 else 1 + BitLength(n / 2)
  }

  /** peak: the largest sample value of the given bit depth, `(1 << bits) - 1`. */
  function Peak(bitsPerSample: nat): (r: nat)
    ensures r < Pow2(bitsPerSample) && r + 1 == Pow2(bitsPerSample)
  {
    Shl(1, bitsPerSample) - 1
  }

  /** The peak fills exactly `bits` binary digits with ones: it needs all of them, and one
      more value would need another. */
  lemma {:induction false} PeakBitLength(bits: nat)
    ensures BitLength(Peak(bits)) == bits
    ensures BitLength(Peak(bits) + 1) == bits + 1
  {
    if bits > 0 {
      PeakBitLength(bits - 1);
      assert Peak(bits) / 2 == Peak(bits - 1);
      assert (Peak(bits) + 1) / 2 == Peak(bits - 1) + 1;
    }
  }

  /** scale: an 8-bit value rescaled to `peak`, rounded ties-to-even. */
  function Scale(value: real, peak: int): (r: int)
    ensures value * peak as real / 255.0 - 0.5 <= r as real <= value * peak as real / 255.0 + 0.5
    ensures var x := value * peak as real / 255.0;
            (r as real == x - 0.5 || r as real == x + 0.5) ==> r % 2 == 0
  {
    BetterRound(value * peak as real / 255.0, 1).value
  }

  /** An 8-bit value scaled to any non-negative peak lands between 0 and that peak. */
  lemma ScaleWithinPeak(value: real, peak: int)
    requires 0.0 <= value <= 255.0 && peak >= 0
    ensures 0 <= Scale(value, peak) <= peak
  {
    var x := value * peak as real / 255.0;
    ProductNonNegative(value, peak as real);
    ProductNonNegative(255.0 - value, peak as real);
    assert (255.0 - value) * peak as real == 255.0 * peak as real - value * peak as real;
    RoundWithin(x, 0, peak);
  }

  /** Scaling to the 8-bit peak only rounds. */
  lemma ScaleToEightBitPeak(value: real)
    ensures Scale(value, Peak(8)) == RoundHalfEven(value)
  {
    assert Peak(8) == 255;
  }

  // ---------------------------------------------------------------------------
  // midval
  // ---------------------------------------------------------------------------

  predicate Sorted(s: seq<int>) {
    forall i, j :: 0 <= i < j < |s| ==> s[i] <= s[j]
  }

  /** x inserted into a sorted list before the first element not below it. */
  function Insert(x: int, s: seq<int>): (r: seq<int>)
    requires Sorted(s)
    ensures |r| == |s| + 1
    ensures r[0] == if s == [] || x <= s[0] then x else s[0]
    ensures Sorted(r) && multiset(r) == multiset(s) + multiset{x}
  {
    if s == [] || x <= s[0] then [x] + s
    else
      var rest := Insert(x, s[1..]);
      assert s == [s[0]] + s[1..];
      assert multiset(s) == multiset{s[0]} + multiset(s[1..]);
      assert multiset([s[0]] + rest) == multiset{s[0]} + multiset(rest);
      assert s[0] <= rest[0];
      assert forall j :: 0 <= j < |rest| ==> s[0] <= rest[j];
      [s[0]] + rest
  }

  /** Python `sorted()` on ints. */
  function SortInts(s: seq<int>): (r: seq<int>)
    ensures Sorted(r) && multiset(r) == multiset(s)
  {
    if s == [] then []
    else
      assert s == [s[0]] + s[1..];
      Insert(s[0], SortInts(s[1..]))
  }

  /** `statistics.median`: the middle of the sorted data, or the mean of the two middle values. */
  function Median(data: seq<int>): (r: Result<real>)
    ensures data == [] <==> r == Err(StatisticsError)
    ensures r.Err? ==> data == []
  {
    if data == [] then Err(StatisticsError)
    else
      var sorted := SortInts(data);
      var n := |sorted|;
      if n % 2 == 1 then Ok(sorted[n / 2] as real)
      else Ok((sorted[n / 2 - 1] + sorted[n / 2]) as real / 2.0)
  }

  /** Two sorted lists holding the same values are the same list: sorting has one result. */
  lemma {:induction false} SortedUnique(a: seq<int>, b: seq<int>)
    requires Sorted(a) && Sorted(b) && multiset(a) == multiset(b)
    ensures a == b
    decreases |a|
  {
    assert |a| == |multiset(a)| == |multiset(b)| == |b|;
    if a != [] {
      SortedHeadIsLeast(b, a[0]);
      SortedHeadIsLeast(a, b[0]);
      assert a[0] == b[0];
      assert multiset(a[1..]) == multiset(a) - multiset{a[0]} by {
        assert a == [a[0]] + a[1..];
      }
      assert multiset(b[1..]) == multiset(b) - multiset{b[0]} by {
        assert b == [b[0]] + b[1..];
      }
      SortedUnique(a[1..], b[1..]);
      assert a == [a[0]] + a[1..] && b == [b[0]] + b[1..];
    }
  }

  /** No value of a sorted list is below its head. */
  lemma SortedHeadIsLeast(s: seq<int>, x: int)
    requires Sorted(s) && x in multiset(s)
    ensures s[0] <= x
  {
    var i :| 0 <= i < |s| && s[i] == x;
  }

  /** The median of data already sorted is its middle value, or the mean of its two
      middle values. */
  lemma MedianOfSorted(data: seq<int>)
    requires data != [] && Sorted(data)
    ensures var n := |data|;
            Median(data) == Ok(if n % 2 == 1 then data[n / 2] as real
                               else (data[n / 2 - 1] + data[n / 2]) as real / 2.0)
  {
    SortedUnique(SortInts(data), data);
  }

  /** Python `x % 2 == 0` for an int or a float x: x is an even whole number. */
  predicate IsEven(x: real) {
    x.Floor as real == x && x.Floor % 2 == 0
  }

  /** midval: the median when it is even, otherwise the median rounded with betterround. */
  function Midval(values: seq<int>): (r: Result<real>)
    ensures values == [] <==> r == Err(StatisticsError)
    ensures r.Ok? ==> r.value.Floor as real == r.value
  {
    match Median(values)
    case Err(e) => Err(e)
    case Ok(median) =>
      if IsEven(median) then Ok(median) else Ok(BetterRound(median, 1).value as real)
  }

  /** Both branches of midval round the median: its value is always the median rounded
      ties-to-even. */
  lemma MidvalIsRoundedMedian(values: seq<int>)
    requires values != []
    ensures Midval(values) == Ok(RoundHalfEven(Median(values).value) as real)
  {
    var median := Median(values).value;
    if IsEven(median) {
      RoundOfInteger(median.Floor);
    }
  }

  /** The median of data that lies between two bounds lies between them too. */
  lemma MedianWithin(data: seq<int>, lo: int, hi: int)
    requires data != []
    requires forall x :: x in data ==> lo <= x <= hi
    ensures lo as real <= Median(data).value <= hi as real
  {
    var sorted := SortInts(data);
    forall i | 0 <= i < |sorted|
      ensures lo <= sorted[i] <= hi
    {
      assert sorted[i] in multiset(sorted);
      assert sorted[i] in multiset(data);
      assert sorted[i] in data;
    }
  }

  /** midval of values between two bounds lies between them. */
  lemma MidvalWithin(values: seq<int>, lo: int, hi: int)
    requires values != []
    requires forall x :: x in values ==> lo <= x <= hi
    ensures lo as real <= Midval(values).value <= hi as real
  {
    MedianWithin(values, lo, hi);
    MidvalIsRoundedMedian(values);
    RoundWithin(Median(values).value, lo, hi);
  }

  /** `[*range(start, end + 1, 1)]`: the frames of an inclusive range, none when the range
      is reversed. */
  function FrameRange(start: int, end: int): (r: seq<int>)
    ensures |r| == if start <= end then end - start + 1 else 0
    ensures forall i :: 0 <= i < |r| ==> r[i] == start + i
  {
    seq(if start <= end then end - start + 1 else 0, i => start + i)
  }

  /** The median of the frames of a range `(start, end)` is its midpoint. */
  lemma MedianOfFrameRange(start: int, end: int)
    requires start <= end
    ensures Median(FrameRange(start, end)) == Ok((start + end) as real / 2.0)
  {
    var r := FrameRange(start, end);
    var n := |r|;
    MedianOfSorted(r);
    var m := n / 2;
    if n % 2 == 1 {
      assert 2 * m == end - start;
      assert r[m] == start + m;
      assert (start + m) as real == (start + end) as real / 2.0;
    } else {
      assert 2 * m == end - start + 1;
      assert r[m - 1] + r[m] == start + end;
    }
  }

  /** The frame that dehardsub picks in a range `(start, end)` is the midpoint of the
      range rounded ties-to-even, a frame of that range. */
  lemma MidvalOfFrameRange(start: int, end: int)
    requires start <= end
    ensures Midval(FrameRange(start, end)) == Ok(RoundHalfEven((start + end) as real / 2.0) as real)
    ensures start as real <= Midval(FrameRange(start, end)).value <= end as real
  {
    var r := FrameRange(start, end);
    forall x | x in r
      ensures start <= x <= end
    {
      var i :| 0 <= i < |r| && r[i] == x;
    }
    MidvalWithin(r, start, end);
    MedianOfFrameRange(start, end);
    MidvalIsRoundedMedian(r);
  }

  /** A reversed range `(start, end)` gives dehardsub no frames, and midval's median of
      nothing is a StatisticsError. */
  lemma ReversedFrameRange(start: int, end: int)
    requires start > end
    ensures FrameRange(start, end) == []
    ensures Midval(FrameRange(start, end)) == Err(StatisticsError)
  {
  }

  // ---------------------------------------------------------------------------
  // desync
  // ---------------------------------------------------------------------------

  /** The `PlaneStatsDiff` above which two frames count as out of sync. */
  const DESYNC_THRESHOLD: real := 0.15

  /** desync: walk the per-frame differences from `start` on and report the first frame
      whose difference exceeds the threshold, or nothing if none does. */
  method Desync(diffs: seq<real>, start: nat) returns (desyncAt: Option<nat>)
    ensures desyncAt.Some? ==> start <= desyncAt.value < |diffs|
    ensures desyncAt.Some? ==> diffs[desyncAt.value] > DESYNC_THRESHOLD
    ensures desyncAt.Some? ==> forall j :: start <= j < desyncAt.value ==> diffs[j] <= DESYNC_THRESHOLD
    ensures desyncAt.None? ==> forall j :: start <= j < |diffs| ==> diffs[j] <= DESYNC_THRESHOLD
  {
    var i := start;
    while i < |diffs|
      invariant start <= i
      invariant forall j :: start <= j < i && j < |diffs| ==> diffs[j] <= DESYNC_THRESHOLD
    {
      if diffs[i] > DESYNC_THRESHOLD {
        return Some(i);
      }
      i := i + 1;
    }
    return None;
  }
}
