/** PhotoUtils: recognising image files by name and taking a file's extension. */
module PhotoUtils {
  import opened Wrappers
  import opened JavaText

  const SupportedExtensions: seq<string> := [".jpg", ".jpeg", ".png", ".gif", ".bmp"]

  /** isImageFile: the lower-cased name ends in a supported extension; null is not an image. */
  method IsImageFile(fileName: Option<string>) returns (r: bool)
    ensures fileName.None? ==> !r
    ensures fileName.Some? ==> (r <==> EndsWithAny(ToLower(fileName.value), SupportedExtensions))
  {
    if fileName.None? {
      return false;
    }
    var lowerFileName := ToLower(fileName.value);
    var i := 0;
    while i < |SupportedExtensions|
      invariant 0 <= i <= |SupportedExtensions|
      invariant forall j :: 0 <= j < i ==> !EndsWith(lowerFileName, SupportedExtensions[j])
    {
      if EndsWith(lowerFileName, SupportedExtensions[i]) {
        return true;
      }
      i := i + 1;
    }
    return false;
  }

  /** String.lastIndexOf(char): the last position holding c, or -1. */
  function LastIndexOf(s: string, c: char): (r: int)
    ensures -1 <= r < |s|
    ensures r >= 0 ==> s[r] == c
    ensures forall i :: r < i < |s| ==> s[i] != c
  {
    LastIndexBefore(s, c, |s|)
  }

  /** The last position below n holding c, or -1. */
  function LastIndexBefore(s: string, c: char, n: nat): (r: int)
    requires n <= |s|
    ensures -1 <= r < n
    ensures r >= 0 ==> s[r] == c
    ensures forall i :: r < i < n ==> s[i] != c
  {
    if n == 0 then -1
    else if s[n - 1] == c then n - 1
    else LastIndexBefore(s, c, n - 1)
  }

  /** getFileExtension: from the last '.' to the end, or "" for null or a name without a dot. */
  function GetFileExtension(fileName: Option<string>): (r: string)
    ensures fileName.None? || '.' !in fileName.value ==> r == ""
    ensures fileName.Some? && '.' in fileName.value ==>
      && |r| >= 1 && r[0] == '.'
      && '.' !in r[1..]
      && EndsWith(fileName.value, r)
  {
    if fileName.None? || LastIndexOf(fileName.value, '.') == -1 then ""
    else
      var name := fileName.value;
      var dot := LastIndexOf(name, '.');
      assert '.' !in name[dot..][1..] by {
        forall k | 0 <= k < |name[dot..][1..]| ensures name[dot..][1..][k] != '.' {
          assert name[dot..][1..][k] == name[dot + 1 + k];
        }
      }
      name[dot..]
  }

  /** A dot followed by dot-free characters: the shape of every supported extension. */
  predicate IsDotSuffix(e: string) {
    |e| >= 1 && e[0] == '.' && forall k :: 1 <= k < |e| ==> e[k] != '.'
  }

  /** LastIndexOf finds the position that holds c when no later position does. */
  lemma LastIndexOfIs(s: string, c: char, p: int)
    requires 0 <= p < |s| && s[p] == c
    requires forall i :: p < i < |s| ==> s[i] != c
    ensures LastIndexOf(s, c) == p
  {
  }

  /** A lower-cased name ending in a dot suffix has its dot where the suffix starts, and none after. */
  lemma DotSuffixPosition(name: string, e: string)
    requires IsDotSuffix(e) && EndsWith(ToLower(name), e)
    ensures name[|name| - |e|] == '.'
    ensures forall i :: |name| - |e| < i < |name| ==> name[i] != '.'
  {
    var lower := ToLower(name);
    var p := |name| - |e|;
    assert lower[p..] == e;
    assert LowerChar(name[p]) == lower[p] == e[0];
    forall i | p < i < |name| ensures name[i] != '.' {
      assert lower[i] == e[i - p];
    }
  }

  /** When the lower-cased name ends in a dot suffix, that suffix starts at the name's last dot. */
  lemma LastDotStartsSuffix(name: string, e: string)
    requires IsDotSuffix(e) && EndsWith(ToLower(name), e)
    ensures LastIndexOf(name, '.') == |name| - |e|
    ensures ToLower(name[|name| - |e|..]) == e
  {
    var p := |name| - |e|;
    DotSuffixPosition(name, e);
    LastIndexOfIs(name, '.', p);
    LowerSuffix(name, p);
  }

  lemma SupportedAreDotSuffixes(j: int)
    requires 0 <= j < |SupportedExtensions|
    ensures IsDotSuffix(SupportedExtensions[j])
  {
    if j == 0 {
      assert IsDotSuffix(".jpg");
    } else if j == 1 {
      assert IsDotSuffix(".jpeg");
    } else if j == 2 {
      assert IsDotSuffix(".png");
    } else if j == 3 {
      assert IsDotSuffix(".gif");
    } else {
      assert IsDotSuffix(".bmp");
    }
  }

  /**
   * Whenever a name is an image file, its extension, lower-cased, is one of
   * the supported ones: the supported extensions hold no dot after the first
   * character, so the last dot of the name is where the extension starts.
   */
  lemma ImageFileExtension(name: string)
    requires EndsWithAny(ToLower(name), SupportedExtensions)
    ensures ToLower(GetFileExtension(Some(name))) in SupportedExtensions
  {
    var j :| 0 <= j < |SupportedExtensions| && EndsWith(ToLower(name), SupportedExtensions[j]);
    SupportedAreDotSuffixes(j);
    LastDotStartsSuffix(name, SupportedExtensions[j]);
  }
}
