/**
 * The integer parts of ASCIIArtGenerator: mapping a brightness to a shade
 * character, the gradient test pattern, and the image-path check.
 */
module AsciiArt {
  import opened Wrappers
  import opened JavaText

  /** ASCII_CHARS, darkest first. */
  const AsciiChars: string := "@%#*+=-:. "

  /** Widths whose gradient `x * 255` stays within a Java int. */
  const MaxPatternWidth: int := IntMax / 255

  /**
   * getASCIIChar: index `(brightness * 9) / 255` in Java int arithmetic;
   * charAt throws (None) when the index falls outside the ten characters.
   */
  function GetAsciiChar(brightness: int): (r: Option<char>)
    requires IsInt32(brightness)
    ensures r.Some? ==> r.value in AsciiChars
  {
    var index := JavaDiv(Wrap32(brightness * (|AsciiChars| - 1)), 255);
    if 0 <= index < |AsciiChars| then Some(AsciiChars[index]) else None
  }

  /** The shade position for an in-range brightness. */
  function ShadeIndex(brightness: int): int {
    brightness * 9 / 255
  }

  lemma DivMonotone(a: int, b: int, d: int)
    requires 0 <= a <= b && 0 < d
    ensures a / d <= b / d
  {
    var qa, qb := a / d, b / d;
    var ra, rb := a % d, b % d;
    assert a == d * qa + ra && 0 <= ra < d;
    assert b == d * qb + rb && 0 <= rb < d;
    assert d * (qb - qa + 1) > 0 by {
      assert d * (qb - qa + 1) == (b - a) - (rb - ra) + d;
    }
    PositiveFactor(d, qb - qa + 1);
  }

  lemma PositiveFactor(d: int, k: int)
    requires d > 0 && d * k > 0
    ensures k > 0
  {
    if k <= 0 {
      MulNonPositive(d, k);
    }
  }

  lemma {:induction false} MulNonPositive(d: nat, k: int)
    requires k <= 0
    ensures d * k <= 0
  {
    if d > 0 {
      MulNonPositive(d - 1, k);
      assert d * k == (d - 1) * k + k;
    }
  }

  /**
   * For a brightness in [0, 255] the index lies in [0, 9], so charAt never
   * throws, and the character is the one at ShadeIndex.
   */
  lemma {:induction false} ShadeInRange(brightness: int)
    requires 0 <= brightness <= 255
    ensures 0 <= ShadeIndex(brightness) <= 9
    ensures GetAsciiChar(brightness) == Some(AsciiChars[ShadeIndex(brightness)])
  {
    DivMonotone(brightness * 9, 255 * 9, 255);
  }

  /** Black maps to '@' and white to ' '. */
  lemma ShadeEndpoints()
    ensures GetAsciiChar(0) == Some('@')
    ensures GetAsciiChar(255) == Some(' ')
  {
    ShadeInRange(0);
    ShadeInRange(255);
  }

  /** A brighter pixel never maps to a darker (earlier) character. */
  lemma {:induction false} ShadeMonotone(b1: int, b2: int)
    requires 0 <= b1 <= b2 <= 255
    ensures ShadeIndex(b1) <= ShadeIndex(b2)
  {
    DivMonotone(b1 * 9, b2 * 9, 255);
  }

  /** The gradient brightness `x * 255 / width` of column x. */
  function GradientBrightness(x: int, width: int): (b: int)
    requires 0 <= x < width <= MaxPatternWidth
    ensures 0 <= b <= 254
  {
    GradientBounds(x, width);
    JavaDiv(Wrap32(x * 255), width)
  }

  lemma GradientBounds(x: int, width: int)
    requires 0 <= x < width <= MaxPatternWidth
    ensures 0 <= x * 255 <= IntMax
    ensures 0 <= (x * 255) / width <= 254
  {
    var n := x * 255;
    var q := n / width;
    assert n == width * q + n % width && 0 <= n % width;
    assert width * (255 - q) > 0 by {
      assert width * (255 - q) == width * 255 - width * q;
      assert n < width * 255;
    }
    PositiveFactor(width, 255 - q);
    assert width * (q + 1) > 0 by {
      assert width * (q + 1) == width * q + width;
    }
    PositiveFactor(width, q + 1);
  }

  /** The character drawn in column x. */
  function GradientChar(x: int, width: int): (c: char)
    requires 0 <= x < width <= MaxPatternWidth
    ensures c in AsciiChars
  {
    ShadeInRange(GradientBrightness(x, width));
    GetAsciiChar(GradientBrightness(x, width)).value
  }

  /** One row of the test pattern: the gradient across the width, then a newline. */
  function PatternRow(width: int): (row: string)
    requires width <= MaxPatternWidth
    ensures |row| == (if width < 0 then 0 else width) + 1
    ensures row[|row| - 1] == '\n'
    ensures forall x :: 0 <= x < width ==> row[x] == GradientChar(x, width)
  {
    seq(if width < 0 then 0 else width, x requires 0 <= x < width => GradientChar(x, width)) + ['\n']
  }

  function Repeat(row: string, n: nat): (r: string)
    ensures |r| == n * |row|
  {
    if n == 0 then [] else Repeat(row, n - 1) + row
  }

  /** Position j of the y-th copy of a repeated row holds the row's j-th character. */
  lemma {:induction false} RepeatIndex(row: string, n: nat, y: nat, j: nat)
    requires y < n && j < |row|
    ensures y * |row| + j < n * |row|
    ensures Repeat(row, n)[y * |row| + j] == row[j]
  {
    assert y * |row| + j < (y + 1) * |row| <= n * |row|;
    if y + 1 < n {
      RepeatIndex(row, n - 1, y, j);
    } else {
      assert |Repeat(row, n - 1)| == y * |row|;
    }
  }

  /** displayTestPattern: the text it builds, `height` gradient rows (printing is not modelled). */
  method DisplayTestPattern(width: int, height: int) returns (pattern: string)
    requires width <= MaxPatternWidth
    ensures pattern == Repeat(PatternRow(width), if height < 0 then 0 else height)
  {
    pattern := [];
    var row := PatternRow(width);
    var y := 0;
    while y < height
      invariant 0 <= y && (height >= 0 ==> y <= height) && (height < 0 ==> y == 0)
      invariant pattern == Repeat(row, y)
    {
      var x := 0;
      while x < width
        invariant 0 <= x < |row|
        invariant pattern == Repeat(row, y) + row[..x]
      {
        var brightness := GradientBrightness(x, width);
        ShadeInRange(brightness);
        var asciiChar := GetAsciiChar(brightness).value;
        assert asciiChar == row[x];
        assert row[..x + 1] == row[..x] + [asciiChar];
        pattern := pattern + [asciiChar];
        x := x + 1;
      }
      assert x == |row| - 1;
      assert row == row[..x] + ['\n'];
      pattern := pattern + ['\n'];
      y := y + 1;
    }
  }

  const ImageSuffixes: seq<string> := [".jpg", ".jpeg", ".png", ".gif", ".bmp"]

  /** A string whose lower-case form ends in a suffix starting with '.' is not blank. */
  lemma DotSuffixNotBlank(s: string, suffix: string)
    requires |suffix| >= 1 && suffix[0] == '.' && EndsWith(ToLower(s), suffix)
    ensures !IsBlank(s)
  {
    var p := |s| - |suffix|;
    assert ToLower(s)[p] == suffix[0];
    assert !Trimmable(s[p]);
  }

  /** The five suffix tests of isImageFile are membership in ImageSuffixes. */
  lemma ImageSuffixesListed(s: string)
    ensures EndsWithAny(s, ImageSuffixes) <==>
      EndsWith(s, ".jpg") || EndsWith(s, ".jpeg") || EndsWith(s, ".png") || EndsWith(s, ".gif") || EndsWith(s, ".bmp")
  {
    EndsWithOneOfFive(s, ".jpg", ".jpeg", ".png", ".gif", ".bmp");
  }

  /** A name that ends in an image suffix is never blank, so the blank test rejects no image name. */
  lemma ImageNameNotBlank(s: string)
    ensures EndsWithAny(ToLower(s), ImageSuffixes) ==> !IsBlank(s)
  {
    if EndsWithAny(ToLower(s), ImageSuffixes) {
      var j :| 0 <= j < |ImageSuffixes| && EndsWith(ToLower(s), ImageSuffixes[j]);
      assert ImageSuffixes[j][0] == '.';
      DotSuffixNotBlank(s, ImageSuffixes[j]);
    }
  }

  /** isImageFile: not null, not blank, and the lower-cased path ends in an image suffix. */
  function IsImageFile(filePath: Option<string>): (r: bool)
    ensures r <==> filePath.Some? && EndsWithAny(ToLower(filePath.value), ImageSuffixes)
  {
    if filePath.None? then false
    else
      var lowerPath := ToLower(filePath.value);
      ImageSuffixesListed(lowerPath);
      ImageNameNotBlank(filePath.value);
      if IsBlank(filePath.value) then false
      else
        EndsWith(lowerPath, ".jpg") || EndsWith(lowerPath, ".jpeg") || EndsWith(lowerPath, ".png")
        || EndsWith(lowerPath, ".gif") || EndsWith(lowerPath, ".bmp")
  }
}
