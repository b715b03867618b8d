/**
 * The file-name rules of the batch driver: the extension filter that picks
 * the images to process, the per-worker temporary name, and the final name.
 * Paths use '/' as their separator.
 */
module Naming {

  // ---------------------------------------------------------------------------
  // filepath.Ext, filepath.Base and an ASCII strings.ToLower
  // ---------------------------------------------------------------------------

  /** No dot and no separator: the characters an extension may hold after its dot. */
  predicate Plain(s: string) {
    forall k :: 0 <= k < |s| ==> s[k] != '.' && s[k] != '/'
  }

  /**
   * filepath.Ext: the suffix from the last '.' of the final path element, or
   * "" when that element has no dot. Written as the scan from the end that
   * Go performs.
   */
  function Ext(path: string): string {
    if |path| == 0 || path[|path| - 1] == '/' then ""
    else if path[|path| - 1] == '.' then "."
    else
      var e := Ext(path[..|path| - 1]);
      if e == "" then "" else e + [path[|path| - 1]]
  }

  /** The extension is a suffix of the path: empty, or a dot followed by plain characters. */
  lemma {:induction false} ExtShape(path: string)
    ensures |Ext(path)| <= |path| && Ext(path) == path[|path| - |Ext(path)|..]
    ensures Ext(path) == "" || (Ext(path)[0] == '.' && Plain(Ext(path)[1..]))
    decreases |path|
  {
    if |path| > 0 && path[|path| - 1] != '/' && path[|path| - 1] != '.' {
      var init, c := path[..|path| - 1], path[|path| - 1];
      ExtShape(init);
      var e := Ext(init);
      if e != "" {
        var ext := e + [c];
        assert Ext(path) == ext;
        assert Plain(ext[1..]) by {
          forall k | 0 <= k < |ext| - 1 ensures ext[1..][k] != '.' && ext[1..][k] != '/' {
            if k < |e| - 1 {
              assert ext[1..][k] == e[1..][k];
            }
          }
        }
        assert ext == path[|path| - |ext|..] by {
          assert path == init + [c];
        }
      }
    }
  }

  /** A dot followed by plain characters at the end of a path is its extension, whatever precedes it. */
  lemma {:induction false} ExtOfSuffix(stem: string, tail: string)
    requires Plain(tail)
    ensures Ext(stem + "." + tail) == "." + tail
    decreases |tail|
  {
    var path := stem + "." + tail;
    if tail == [] {
      assert path[|path| - 1] == '.';
    } else {
      var init := tail[..|tail| - 1];
      assert path[..|path| - 1] == stem + "." + init;
      assert Plain(init) by {
        forall k | 0 <= k < |init| ensures init[k] != '.' && init[k] != '/' {
          assert init[k] == tail[k];
        }
      }
      ExtOfSuffix(stem, init);
      assert path[|path| - 1] == tail[|tail| - 1];
      assert "." + init + [tail[|tail| - 1]] == "." + tail;
    }
  }

  /** Appending plain characters to a path without an extension leaves it without one. */
  lemma {:induction false} NoExtAfterPlain(stem: string, tail: string)
    requires Ext(stem) == "" && Plain(tail)
    ensures Ext(stem + tail) == ""
    decreases |tail|
  {
    if tail == [] {
      assert stem + tail == stem;
    } else {
      var init := tail[..|tail| - 1];
      assert (stem + tail)[..|stem + tail| - 1] == stem + init;
      assert Plain(init) by {
        forall k | 0 <= k < |init| ensures init[k] != '.' && init[k] != '/' {
          assert init[k] == tail[k];
        }
      }
      NoExtAfterPlain(stem, init);
      var last := (stem + tail)[|stem + tail| - 1];
      assert last == tail[|tail| - 1] && last != '.' && last != '/';
    }
  }

  /** The position after the last '/' of path, or 0 when it has none. */
  function AfterLastSlash(path: string): (i: nat)
    ensures i <= |path|
    ensures i > 0 ==> path[i - 1] == '/'
    ensures forall k :: i <= k < |path| ==> path[k] != '/'
  {
    if |path| == 0 then 0
    else if path[|path| - 1] == '/' then |path|
    else AfterLastSlash(path[..|path| - 1])
  }

  /** path without its trailing '/' characters. */
  function TrimTrailingSlashes(path: string): (t: string)
    ensures |t| <= |path| && t == path[..|t|]
    ensures forall k :: |t| <= k < |path| ==> path[k] == '/'
    ensures t == "" || t[|t| - 1] != '/'
  {
    if |path| > 0 && path[|path| - 1] == '/' then TrimTrailingSlashes(path[..|path| - 1]) else path
  }

  /**
   * filepath.Base: the last element of path, after trailing separators are
   * removed; "." for the empty path and "/" for a path of separators only.
   */
  function Base(path: string): (b: string)
    ensures b != ""
    ensures b == "/" || '/' !in b
    ensures path == "" ==> b == "."
    ensures path != "" && TrimTrailingSlashes(path) == "" ==> b == "/"
    ensures TrimTrailingSlashes(path) != "" ==>
      var t := TrimTrailingSlashes(path);
      EndsWith(t, b) && (|b| == |t| || t[|t| - |b| - 1] == '/')
  {
    if path == "" then "."
    else
      var t := TrimTrailingSlashes(path);
      if t == "" then "/" else t[AfterLastSlash(t)..]
  }

  function LowerChar(c: char): char {
    if 'A' <= c <= 'Z' then (c as int + 32) as char else c
  }

  /** strings.ToLower on ASCII letters; other characters are left as they are. */
  function AsciiLower(s: string): (t: string)
    ensures |t| == |s|
    ensures forall k :: 0 <= k < |s| ==> t[k] == LowerChar(s[k])
  {
    seq(|s|, k requires 0 <= k < |s| => LowerChar(s[k]))
  }

  // ---------------------------------------------------------------------------
  // The extension filter
  // ---------------------------------------------------------------------------

  predicate IsImageExtension(ext: string) {
    ext == ".jpg" || ext == ".jpeg" || ext == ".png"
  }

  /** The test of the walk callback: the lower-cased extension is .jpg, .jpeg or .png. */
  predicate IsImagePath(path: string) {
    IsImageExtension(AsciiLower(Ext(path)))
  }

  predicate EndsWith(s: string, suffix: string) {
    |suffix| <= |s| && s[|s| - |suffix|..] == suffix
  }

  /** Lower-casing commutes with taking a suffix. */
  lemma LowerSuffix(s: string, n: nat)
    requires n <= |s|
    ensures AsciiLower(s)[|s| - n..] == AsciiLower(s[|s| - n..])
  {
  }

  /** Lower-casing never creates or removes a '.' or a '/'. */
  lemma LowerKeepsPlain(s: string)
    ensures Plain(AsciiLower(s)) <==> Plain(s)
  {
    if !Plain(s) {
      var k :| 0 <= k < |s| && (s[k] == '.' || s[k] == '/');
      assert AsciiLower(s)[k] == s[k];
    }
    if !Plain(AsciiLower(s)) {
      var k :| 0 <= k < |s| && (AsciiLower(s)[k] == '.' || AsciiLower(s)[k] == '/');
      assert s[k] == AsciiLower(s)[k];
    }
  }

  /** Each accepted extension is a dot followed by plain characters. */
  lemma ImageExtensionShape(x: string)
    requires IsImageExtension(x)
    ensures |x| >= 2 && x[0] == '.' && Plain(x[1..])
  {
  }

  /** A path whose lower-cased form ends in extension x has an extension that lower-cases to x. */
  lemma ExtFromLowerSuffix(path: string, x: string)
    requires |x| >= 1 && x[0] == '.' && Plain(x[1..]) && EndsWith(AsciiLower(path), x)
    ensures AsciiLower(Ext(path)) == x
  {
    var n := |x|;
    var last := path[|path| - n..];
    LowerSuffix(path, n);
    assert AsciiLower(last) == x;
    assert last[0] == '.' by {
      assert AsciiLower(last)[0] == LowerChar(last[0]);
    }
    var tail := last[1..];
    assert AsciiLower(tail) == x[1..];
    LowerKeepsPlain(tail);
    var stem := path[..|path| - n];
    assert path == stem + "." + tail;
    ExtOfSuffix(stem, tail);
    assert Ext(path) == "." + tail == last;
  }

  /**
   * A path passes the filter exactly when, lower-cased, it ends in .jpg,
   * .jpeg or .png.
   */
  lemma ImagePathBySuffix(path: string)
    ensures IsImagePath(path) <==>
      EndsWith(AsciiLower(path), ".jpg") || EndsWith(AsciiLower(path), ".jpeg")
      || EndsWith(AsciiLower(path), ".png")
  {
    var lower := AsciiLower(path);
    var e := Ext(path);
    ExtShape(path);
    LowerSuffix(path, |e|);
    assert path[|path| - |e|..] == e;
    assert lower[|lower| - |e|..] == AsciiLower(e);
    forall x | IsImageExtension(x) && EndsWith(lower, x)
      ensures IsImagePath(path)
    {
      ImageExtensionShape(x);
      ExtFromLowerSuffix(path, x);
    }
  }

  // ---------------------------------------------------------------------------
  // Temporary names
  // ---------------------------------------------------------------------------

  function DigitChar(d: nat): char
    requires d < 10
  {
    "0123456789"[d]
  }

  function DigitValue(c: char): int {
    c as int - '0' as int
  }

  predicate AllDigits(s: string) {
    forall k :: 0 <= k < |s| ==> '0' <= s[k] <= '9'
  }

  /** The decimal digits of n, most significant first, without leading zeros. */
  function Digits(n: nat): (s: string)
    ensures |s| >= 1 && AllDigits(s)
    decreases n
  {
    if n < 10 then [DigitChar(n)] else Digits(n / 10) + [DigitChar(n % 10)]
  }

  /** The number a string of decimal digits denotes. */
  function ParseDigits(s: string): int {
    if s == [] then 0 else 10 * ParseDigits(s[..|s| - 1]) + DigitValue(s[|s| - 1])
  }

  /** Reading the digits of n back gives n. */
  lemma {:induction false} ParseDigitsOf(n: nat)
    ensures ParseDigits(Digits(n)) == n
    decreases n
  {
    if n >= 10 {
      var s := Digits(n);
      assert s[..|s| - 1] == Digits(n / 10);
      ParseDigitsOf(n / 10);
    }
  }

  /** fmt's %d: an optional minus sign and the digits of the magnitude. */
  function Itoa(n: int): string {
    if n < 0 then "-" + Digits(-n) else Digits(n)
  }

  /** A printed integer is not empty, holds no '_', and starts with '-' exactly when it is negative. */
  lemma ItoaShape(n: int)
    ensures |Itoa(n)| >= 1 && '_' !in Itoa(n)
    ensures Itoa(n)[0] == '-' <==> n < 0
  {
    var d := Digits(if n < 0 then -n else n);
    assert d[0] != '-';
    if n < 0 {
      assert Itoa(n) == "-" + d;
      assert forall k :: 1 <= k < |Itoa(n)| ==> Itoa(n)[k] == d[k - 1];
    }
  }

  /** Different numbers have different digits. */
  lemma DigitsInjective(m: nat, n: nat)
    requires Digits(m) == Digits(n)
    ensures m == n
  {
    ParseDigitsOf(m);
    ParseDigitsOf(n);
  }

  /** After its minus sign, a negative integer prints the digits of its magnitude. */
  lemma NegativeDigits(n: int)
    requires n < 0
    ensures |Itoa(n)| >= 1 && Itoa(n)[1..] == Digits(-n)
  {
  }

  /** Negative integers with the same text are equal. */
  lemma NegativeItoaInjective(m: int, n: int)
    requires m < 0 && n < 0 && Itoa(m) == Itoa(n)
    ensures m == n
  {
    NegativeDigits(m);
    NegativeDigits(n);
    DigitsInjective(-m, -n);
  }

  /** Different integers print differently. */
  lemma ItoaInjective(m: int, n: int)
    requires Itoa(m) == Itoa(n)
    ensures m == n
  {
    ItoaShape(m);
    ItoaShape(n);
    if m < 0 {
      NegativeItoaInjective(m, n);
    } else {
      DigitsInjective(m, n);
    }
  }

  /**
   * The temporary name a worker writes a job's output under, in the job's
   * output directory: a hidden file named after the worker ID and the file.
   * The ID is the text between ".temp_" and the next '_', which the number
   * never contains.
   */
  function TempName(workerID: int, filename: string): (t: string)
    ensures |t| == 7 + |Itoa(workerID)| + |filename|
    ensures t[..6] == ".temp_"
    ensures t[6..6 + |Itoa(workerID)|] == Itoa(workerID)
    ensures t[6 + |Itoa(workerID)|] == '_'
    ensures t[7 + |Itoa(workerID)|..] == filename
  {
    ".temp_" + Itoa(workerID) + "_" + filename
  }

  /** Two workers, or two files, never share a temporary name. */
  lemma TempNamesDistinct(id1: int, name1: string, id2: int, name2: string)
    requires (id1, name1) != (id2, name2)
    ensures TempName(id1, name1) != TempName(id2, name2)
  {
    if TempName(id1, name1) == TempName(id2, name2) {
      var t := TempName(id1, name1);
      var d1, d2 := Itoa(id1), Itoa(id2);
      ItoaShape(id1);
      ItoaShape(id2);
      ItoaInjective(id1, id2);
    }
  }

  // ---------------------------------------------------------------------------
  // Final names
  // ---------------------------------------------------------------------------

  /** strings.TrimSuffix. */
  function TrimSuffix(s: string, suffix: string): (t: string)
    ensures EndsWith(s, suffix) ==> t + suffix == s
    ensures !EndsWith(s, suffix) ==> t == s
  {
    if EndsWith(s, suffix) then s[..|s| - |suffix|] else s
  }

  /**
   * The name a job's output gets once the worker renames it: stem + "_cropped"
   * + extension for a cropped image, the file name itself otherwise. The two
   * names of one file always differ.
   */
  function FinalName(filename: string, wasCropped: bool): (name: string)
    ensures name == filename <==> !wasCropped
    ensures wasCropped ==> |name| == |filename| + 8
  {
    if wasCropped then
      ExtShape(filename);
      assert EndsWith(filename, Ext(filename));
      TrimSuffix(filename, Ext(filename)) + "_cropped" + Ext(filename)
    else filename
  }

  /** A cropped image is saved under the name with "_cropped" inserted before its extension. */
  lemma CroppedNameShape(filename: string)
    ensures |Ext(filename)| <= |filename|
    ensures FinalName(filename, true) == filename[..|filename| - |Ext(filename)|] + "_cropped" + Ext(filename)
    ensures |FinalName(filename, true)| == |filename| + 8
  {
    ExtShape(filename);
    assert EndsWith(filename, Ext(filename));
  }

  /** Inserting plain characters before an extension keeps it. */
  lemma ExtAfterInsert(stem: string, insert: string, e: string)
    requires e != "" && e[0] == '.' && Plain(e[1..])
    ensures Ext(stem + insert + e) == e
  {
    assert stem + insert + e == (stem + insert) + "." + e[1..];
    ExtOfSuffix(stem + insert, e[1..]);
  }

  /** The cropped name keeps the extension, so the output stays a .jpg, .jpeg or .png file. */
  lemma CroppedNameKeepsExt(filename: string)
    ensures Ext(FinalName(filename, true)) == Ext(filename)
    ensures IsImagePath(FinalName(filename, true)) <==> IsImagePath(filename)
  {
    var e := Ext(filename);
    CroppedNameShape(filename);
    if e == "" {
      assert FinalName(filename, true) == filename + "_cropped";
      NoExtAfterPlain(filename, "_cropped");
    } else {
      ExtShape(filename);
      ExtAfterInsert(filename[..|filename| - |e|], "_cropped", e);
    }
  }
}
