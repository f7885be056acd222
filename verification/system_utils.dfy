/** SystemUtils.centerText: left padding that centres a title in a given width. */
module SystemUtils {
  import opened JavaText

  /**
   * centerText: text at least as long as the width comes back unchanged;
   * otherwise (width - length) / 2 spaces precede it and nothing follows.
   */
  method CenterText(text: string, width: int) returns (r: string)
    ensures EndsWith(r, text)
    ensures forall i :: 0 <= i < |r| - |text| ==> r[i] == ' '
    ensures |text| >= width ==> r == text
    ensures |text| < width ==> |r| - |text| == (width - |text|) / 2 && |r| <= width
  {
    if |text| >= width {
      return text;
    }
    var padding := (width - |text|) / 2;
    var sb := "";
    var i := 0;
    while i < padding
      invariant 0 <= i <= padding
      invariant |sb| == i && forall k :: 0 <= k < i ==> sb[k] == ' '
    {
      sb := sb + " ";
      i := i + 1;
    }
    r := sb + text;
    assert r[|r| - |text|..] == text;
  }
}
