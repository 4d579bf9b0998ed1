/** Filename helpers of the C++ library: `strip_fn`, `strip_ext` (util.cc)
    and `is_image` (util.hh). Strings are sequences of characters. */
module Filenames {

  /** Index of the last occurrence of `ch` in `s`, or -1 when there is none. */
  function LastIndexOf(s: string, ch: char): (r: int)
    ensures -1 <= r < |s|
    ensures r >= 0 ==> s[r] == ch
    ensures forall i :: r < i < |s| ==> s[i] != ch
  {
    if |s| == 0 then -1
    else if s[|s| - 1] == ch then |s| - 1
    else LastIndexOf(s[..|s| - 1], ch)
  }

  /** The last occurrence is the occurrence with none after it. */
  lemma LastIndexOfAt(s: string, ch: char, i: int)
    requires -1 <= i < |s| && (i >= 0 ==> s[i] == ch)
    requires forall k :: i < k < |s| ==> s[k] != ch
    ensures LastIndexOf(s, ch) == i
  {
  }

  /** `strip_fn`: the part of a path after its last '/'. */
  function StripFn(s: string): (r: string)
    ensures '/' !in r
    ensures |r| <= |s|
    ensures '/' !in s ==> r == s
    ensures '/' in s ==> |r| < |s| && s == s[..|s| - |r| - 1] + "/" + r
    ensures '/' in s ==> '/' !in s[|s| - |r|..]  && s[|s| - |r| - 1] == '/'
  {
    var i := LastIndexOf(s, '/');
    if i < 0 then s else s[i + 1..]
  }

  /** `strip_ext`: the part of a path before its last '.', wherever that '.' is. */
  function StripExt(s: string): (r: string)
    ensures |r| <= |s|
    ensures '.' !in s ==> r == s
    ensures '.' in s ==> |r| < |s| && s == r + "." + s[|r| + 1..] && '.' !in s[|r| + 1..]
  {
    var i := LastIndexOf(s, '.');
    if i < 0 then s else s[..i]
  }

  lemma StripFnIdempotent(s: string)
    ensures StripFn(StripFn(s)) == StripFn(s)
  {
  }

  /** True when `pat` occurs in `s` starting at index `i`. */
  predicate OccursAt(s: string, pat: string, i: int)
  {
    0 <= i && i + |pat| <= |s| && s[i..i + |pat|] == pat
  }

  /** `std::string::find`: the first index at which `pat` occurs at or after
      `from`, or -1 (`npos`). */
  function Find(s: string, pat: string, from: nat): (r: int)
    decreases |s| - from
    ensures r == -1 || (from <= r && OccursAt(s, pat, r))
    ensures r == -1 ==> forall i :: from <= i ==> !OccursAt(s, pat, i)
    ensures r >= 0 ==> forall i :: from <= i < r ==> !OccursAt(s, pat, i)
  {
    if from + |pat| > |s| then -1
    else if s[from..from + |pat|] == pat then from
    else Find(s, pat, from + 1)
  }

  /** `is_image`: one of the three image suffixes occurs somewhere in the name. */
  function IsImage(s: string): bool
  {
    !(Find(s, ".png", 0) == -1 && Find(s, ".jpg", 0) == -1 && Find(s, ".PNG", 0) == -1)
  }

  ghost predicate Contains(s: string, pat: string)
  {
    exists i :: OccursAt(s, pat, i)
  }

  lemma IsImageIff(s: string)
    ensures IsImage(s) <==> Contains(s, ".png") || Contains(s, ".jpg") || Contains(s, ".PNG")
  {
    if Contains(s, ".png") {
      var i :| OccursAt(s, ".png", i);
    }
    if Contains(s, ".jpg") {
      var i :| OccursAt(s, ".jpg", i);
    }
    if Contains(s, ".PNG") {
      var i :| OccursAt(s, ".PNG", i);
    }
  }

  lemma IsImageRejectsEmpty()
    ensures !IsImage("")
  {
  }

  /** The test is case-sensitive: other spellings of the extensions are refused. */
  lemma IsImageCaseSensitive()
    ensures !IsImage("scan.JPG")
    ensures !IsImage("scan.Png")
  {
    NoSuffixOccurs("scan.JPG");
    NoSuffixOccurs("scan.Png");
    IsImageIff("scan.JPG");
    IsImageIff("scan.Png");
  }

  /** A name whose only '.' is at index 4 and is followed by neither
      "png", "jpg" nor "PNG" contains none of the accepted suffixes. */
  lemma NoSuffixOccurs(s: string)
    requires |s| == 8 && s[4] == '.'
    requires forall k :: 0 <= k < |s| && k != 4 ==> s[k] != '.'
    requires !(s[5] == 'p' && s[6] == 'n' && s[7] == 'g')
    requires !(s[5] == 'j' && s[6] == 'p' && s[7] == 'g')
    requires !(s[5] == 'P' && s[6] == 'N' && s[7] == 'G')
    ensures !Contains(s, ".png") && !Contains(s, ".jpg") && !Contains(s, ".PNG")
  {
    forall pat, i | pat in {".png", ".jpg", ".PNG"} && OccursAt(s, pat, i)
      ensures false
    {
      OccursChars(s, pat, i);
    }
  }

  lemma OccursChars(s: string, pat: string, i: int)
    requires OccursAt(s, pat, i) && |pat| == 4
    ensures s[i] == pat[0] && s[i + 1] == pat[1] && s[i + 2] == pat[2] && s[i + 3] == pat[3]
  {
    assert s[i..i + 4][0] == s[i];
    assert s[i..i + 4][1] == s[i + 1];
    assert s[i..i + 4][2] == s[i + 2];
    assert s[i..i + 4][3] == s[i + 3];
  }

  lemma OccursShifted(s: string, pat: string, i: int, p: string, q: string)
    requires OccursAt(s, pat, i)
    ensures OccursAt(p + s + q, pat, |p| + i)
  {
    assert (p + s + q)[|p| + i..|p| + i + |pat|] == s[i..i + |pat|];
  }

  /** Any name that embeds an accepted name is accepted ("x.png.bak"). */
  lemma IsImageMonotone(s: string, p: string, q: string)
    requires IsImage(s)
    ensures IsImage(p + s + q)
  {
    IsImageIff(s);
    IsImageIff(p + s + q);
    var pat: string;
    if Contains(s, ".png") { pat := ".png"; }
    else if Contains(s, ".jpg") { pat := ".jpg"; }
    else { pat := ".PNG"; }
    var i :| OccursAt(s, pat, i);
    OccursShifted(s, pat, i, p, q);
  }
}

/** The local copies of `strip_fn` and `strip_ext` in the DeepScores driver,
    modelled loop for loop. */
module DeepScoresNames {
  import Filenames

  method StripFn(fn: string) returns (out: string)
    ensures out == Filenames.StripFn(fn)
    ensures '/' !in out
  {
    out := fn;
    var i := |fn| - 1;
    while i >= 0
      invariant -1 <= i < |fn|
      invariant out == fn
      invariant forall k :: i < k < |fn| ==> fn[k] != '/'
    {
      if fn[i] == '/' {
        Filenames.LastIndexOfAt(fn, '/', i);
        out := [];
        var j := i + 1;
        while j < |fn|
          invariant i + 1 <= j <= |fn|
          invariant out == fn[i + 1..j]
        {
          assert fn[i + 1..j + 1] == fn[i + 1..j] + [fn[j]];
          out := out + [fn[j]];
          j := j + 1;
        }
        assert out == fn[i + 1..];
        return;
      }
      i := i - 1;
    }
    Filenames.LastIndexOfAt(fn, '/', -1);
  }

  method StripExt(fn: string) returns (out: string)
    ensures out == Filenames.StripExt(fn)
    ensures '.' in fn ==> |out| < |fn| && fn[|out|] == '.'
  {
    out := fn;
    var i := |fn| - 1;
    while i >= 0
      invariant -1 <= i < |fn|
      invariant out == fn
      invariant forall k :: i < k < |fn| ==> fn[k] != '.'
    {
      if fn[i] == '.' {
        out := [];
        var j := 0;
        while j < i
          invariant 0 <= j <= i
          invariant out == fn[..j]
        {
          out := out + [fn[j]];
          j := j + 1;
        }
        return;
      }
      i := i - 1;
    }
  }
}
