/**
 The unit choice of `format_file_size`: a byte count is shown in B, KB, MB or GB.
 Only the bucket is modelled; the two-decimal float rendering is not.
 */
module SizeFormat {
  import opened Base
  import opened Text
  import SizeParse

  datatype DisplayUnit = B | KB | MB | GB

  /** The power of 1024 a display unit stands for. */
  function Rank(u: DisplayUnit): nat {
    match u
    case B => 0
    case KB => 1
    case MB => 2
    case GB => 3
  }

  function Scale(u: DisplayUnit): nat {
    SizeParse.Power1024(Rank(u))
  }

  /** The suffix printed after the number. */
  function Label(u: DisplayUnit): string {
    match u
    case B => "B"
    case KB => "KB"
    case MB => "MB"
    case GB => "GB"
  }

  /** The bucket `format_file_size` picks: bytes below 1024 (negative sizes included),
      otherwise the largest unit that does not exceed the size, capped at GB. */
  function DisplayUnitOf(size: int): (u: DisplayUnit)
    ensures size < 1024 ==> u == B
    ensures size >= 1024 ==> u != B && Scale(u) <= size && (u == GB || size < 1024 * Scale(u))
  {
    assert Scale(KB) == 1024 && Scale(MB) == 1024 * 1024 && Scale(GB) == 1024 * 1024 * 1024 by {
      assert SizeParse.Power1024(3) == 1024 * SizeParse.Power1024(2);
      assert SizeParse.Power1024(2) == 1024 * SizeParse.Power1024(1);
      assert SizeParse.Power1024(1) == 1024 * SizeParse.Power1024(0);
    }
    if size < 1024 then B
    else if size < 1024 * 1024 then KB
    else if size < 1024 * 1024 * 1024 then MB
    else GB
  }

  /** A larger size is never shown in a smaller unit. */
  lemma DisplayUnitMonotone(a: int, b: int)
    requires a <= b
    ensures Rank(DisplayUnitOf(a)) <= Rank(DisplayUnitOf(b))
  {
  }

  /** The label printed for a unit is read back by `parse_file_size` as the same
      multiplier: a whole number followed by "KB" is that many times 1024 bytes, and so on. */
  lemma LabelsParseBack(n: nat, u: DisplayUnit)
    ensures SizeParse.IsUnitCapture(Label(u))
    ensures SizeParse.ParseFileSize(ShowNat(n) + Label(u)) == Some(n * Scale(u))
  {
    var l := Label(u);
    assert |l| >= 1 && (|l| == 2 ==> l[1] == 'B');
    assert SizeParse.Multiplier(l) == Scale(u);
    SizeParse.WholeNumberWithUnit(n, l);
  }
}
