/**
 * File names for split pages: the path helpers of System.IO.Path that the
 * library relies on (Windows separators), the "D<width>" integer format, and
 * the stateful NewFilesNamingOptions counter.
 */
module Naming {
  import opened Wrappers

  newtype int32 = x: int | -0x8000_0000 <= x < 0x8000_0000

  /** C# `int` addition outside a checked context wraps modulo 2^32. */
  function Wrap32(x: int): (r: int32)
    ensures r as int % 0x1_0000_0000 == x % 0x1_0000_0000
    ensures -0x8000_0000 <= x < 0x8000_0000 ==> r as int == x
  {
    ((x + 0x8000_0000) % 0x1_0000_0000 - 0x8000_0000) as int32
  }

  // ----- System.IO.Path on Windows ------------------------------------------

  /** DirectorySeparatorChar, AltDirectorySeparatorChar, VolumeSeparatorChar. */
  predicate IsSeparator(c: char)
  {
    c == '\\' || c == '/' || c == ':'
  }

  /** Path.GetFileName: the part of `path` after its last separator. */
  function GetFileName(path: string): (r: string)
    ensures |r| <= |path|
    ensures forall i :: 0 <= i < |r| ==> !IsSeparator(r[i])
    ensures |r| < |path| ==> IsSeparator(path[|path| - |r| - 1])
  {
    if |path| == 0 || IsSeparator(path[|path| - 1]) then []
    else GetFileName(path[..|path| - 1]) + [path[|path| - 1]]
  }

  /** The file name is what follows the directory part of the path. */
  lemma {:induction false} FileNameIsSuffix(path: string)
    ensures path[..|path| - |GetFileName(path)|] + GetFileName(path) == path
  {
    if |path| > 0 && !IsSeparator(path[|path| - 1]) {
      var init, last := path[..|path| - 1], path[|path| - 1];
      var r := GetFileName(init);
      assert GetFileName(path) == r + [last];
      FileNameIsSuffix(init);
      var head := init[..|init| - |r|];
      assert path[..|path| - |r| - 1] == head;
      assert head + (r + [last]) == (head + r) + [last];
      assert init + [last] == path;
    }
  }

  /** String.LastIndexOf(char): the last position of `c`, or -1. */
  function LastIndexOf(s: string, c: char): (r: int)
    ensures -1 <= r < |s|
    ensures r >= 0 ==> s[r] == c
    ensures forall j :: r < j < |s| ==> s[j] != c
  {
    if |s| == 0 then -1
    else if s[|s| - 1] == c then |s| - 1
    else LastIndexOf(s[..|s| - 1], c)
  }

  /** Path.GetFileNameWithoutExtension: the file name up to its last '.'. */
  function GetFileNameWithoutExtension(path: string): string
  {
    var name := GetFileName(path);
    var i := LastIndexOf(name, '.');
    if i < 0 then name else name[..i]
  }

  /** Path.GetExtension: the file name from its last '.', or "" when that '.' ends the name. */
  function GetExtension(path: string): string
  {
    var name := GetFileName(path);
    var i := LastIndexOf(name, '.');
    if i < 0 || i == |name| - 1 then "" else name[i..]
  }

  /**
   * The two halves put the file name back together, except that a name ending
   * in '.' loses that dot; the extension is empty or one '.' followed by at
   * least one character other than '.'; the directory part contributes nothing.
   */
  lemma SplitAtLastDot(path: string)
    ensures var name, base, ext := GetFileName(path), GetFileNameWithoutExtension(path), GetExtension(path);
      base + ext == name || (ext == "" && base + "." == name)
    ensures var ext := GetExtension(path);
      ext == "" || (|ext| >= 2 && ext[0] == '.' && forall j :: 1 <= j < |ext| ==> ext[j] != '.')
    ensures var base := GetFileNameWithoutExtension(path);
      forall j :: 0 <= j < |base| ==> !IsSeparator(base[j])
  {
    var name := GetFileName(path);
    var i := LastIndexOf(name, '.');
    if 0 <= i && i == |name| - 1 {
      DropFinalDot(name);
    } else if 0 <= i {
      SliceAt(name, i);
    }
  }

  lemma SliceAt(s: string, i: int)
    requires 0 <= i <= |s|
    ensures s[..i] + s[i..] == s
  {
  }

  lemma DropFinalDot(s: string)
    requires |s| > 0 && s[|s| - 1] == '.'
    ensures s[..|s| - 1] + "." == s
  {
  }

  /** A name made of a dot-free base and a one-dot extension splits back into those two parts. */
  lemma SplitPlainName(base: string, ext: string)
    requires forall j :: 0 <= j < |base| ==> !IsSeparator(base[j]) && base[j] != '.'
    requires |ext| >= 2 && ext[0] == '.'
    requires forall j :: 0 <= j < |ext| ==> !IsSeparator(ext[j]) && (j > 0 ==> ext[j] != '.')
    ensures GetFileNameWithoutExtension(base + ext) == base
    ensures GetExtension(base + ext) == ext
  {
    var name := base + ext;
    PlainFileName(name);
    assert name[|base|] == '.';
    assert forall j :: |base| < j < |name| ==> name[j] == ext[j - |base|];
    LastIndexOfAt(name, '.', |base|);
    NameParts(name, |base|);
    assert name[..|base|] == base;
    assert name[|base|..] == ext;
  }

  lemma NameParts(name: string, i: int)
    requires GetFileName(name) == name && 0 <= i < |name| - 1 && LastIndexOf(name, '.') == i
    ensures GetFileNameWithoutExtension(name) == name[..i] && GetExtension(name) == name[i..]
  {
  }

  /** A name without separators is its own file name. */
  lemma PlainFileName(name: string)
    requires forall j :: 0 <= j < |name| ==> !IsSeparator(name[j])
    ensures GetFileName(name) == name
  {
    var r := GetFileName(name);
    assert |r| == |name|;
    FileNameIsSuffix(name);
  }

  lemma LastIndexOfAt(s: string, c: char, i: int)
    requires 0 <= i < |s| && s[i] == c
    requires forall j :: i < j < |s| ==> s[j] != c
    ensures LastIndexOf(s, c) == i
  {
  }

  /** Path.IsPathRooted: a leading '\' or '/', or a drive letter's ':' in second place. */
  predicate IsRooted(path: string)
  {
    (|path| >= 1 && (path[0] == '\\' || path[0] == '/')) || (|path| >= 2 && path[1] == ':')
  }

  /**
   * Path.Combine(directory, name): an empty part gives the other one, a
   * rooted name replaces the directory, and otherwise one '\' goes between
   * the parts unless the directory already ends in '\', '/' or ':'.
   */
  function Combine(directory: string, name: string): (r: string)
    ensures |name| == 0 ==> r == directory
    ensures |name| > 0 && !IsRooted(name) ==>
      |directory| + |name| <= |r| && r[|r| - |name|..] == name && r[..|directory|] == directory
  {
    if |name| == 0 then directory
    else if |directory| == 0 || IsRooted(name) then name
    else if IsSeparator(directory[|directory| - 1]) then directory + name
    else directory + "\\" + name
  }

  /** A separator-free name after a separator, or alone, is the file name of the path. */
  lemma {:induction false} FileNameAfterSeparator(p: string, name: string)
    requires |p| == 0 || IsSeparator(p[|p| - 1])
    requires forall j :: 0 <= j < |name| ==> !IsSeparator(name[j])
    ensures GetFileName(p + name) == name
    decreases |name|
  {
    if |name| == 0 {
      assert p + name == p;
    } else {
      var init, last := name[..|name| - 1], name[|name| - 1];
      var s := p + name;
      assert s[|s| - 1] == last && !IsSeparator(last);
      assert s[..|s| - 1] == p + init;
      assert GetFileName(s) == GetFileName(p + init) + [last];
      FileNameAfterSeparator(p, init);
      assert init + [last] == name;
    }
  }

  /** The file name of a combined path is the name that was combined, when it holds no separator. */
  lemma CombineFileName(directory: string, name: string)
    requires forall j :: 0 <= j < |name| ==> !IsSeparator(name[j])
    requires |name| > 0
    ensures GetFileName(Combine(directory, name)) == name
  {
    assert !IsSeparator(name[0]) && (|name| >= 2 ==> !IsSeparator(name[1]));
    assert !IsRooted(name);
    if |directory| == 0 {
      FileNameAfterSeparator("", name);
      assert "" + name == name;
    } else if IsSeparator(directory[|directory| - 1]) {
      FileNameAfterSeparator(directory, name);
    } else {
      FileNameAfterSeparator(directory + "\\", name);
      assert directory + "\\" + name == (directory + "\\") + name;
    }
  }

  /** Path.Combine on a name that starts with ':', an empty name, a drive-rooted name and a directory ending in '\'. */
  lemma CombineCases()
    ensures Combine("out", ":x001.tif") == "out\\:x001.tif"
    ensures Combine("out", "") == "out"
    ensures Combine("out", "C:\\scan.tif") == "C:\\scan.tif"
    ensures Combine("out\\", "a.tif") == "out\\a.tif"
  {
  }

  // ----- Int32.ToString("D" + width) -----------------------------------------

  function DigitChar(d: nat): char
    requires d < 10
  {
    ('0' as int + d) as char
  }

  predicate IsDigit(c: char)
  {
    '0' <= c <= '9'
  }

  /** The shortest decimal representation of `n`. */
  function Digits(n: nat): (r: string)
    ensures |r| >= 1 && forall i :: 0 <= i < |r| ==> IsDigit(r[i])
    ensures |r| > 1 ==> r[0] != '0'
  {
    if n < 10 then [DigitChar(n)] else Digits(n / 10) + [DigitChar(n % 10)]
  }

  predicate AllDigits(s: string)
  {
    forall i :: 0 <= i < |s| ==> IsDigit(s[i])
  }

  function DigitValue(c: char): nat
    requires IsDigit(c)
  {
    c as int - '0' as int
  }

  /** The number a string of decimal digits denotes. */
  function DigitsValue(s: string): nat
    requires AllDigits(s)
  {
    if |s| == 0 then 0 else DigitsValue(s[..|s| - 1]) * 10 + DigitValue(s[|s| - 1])
  }

  lemma {:induction false} DigitsRoundTrip(n: nat)
    ensures DigitsValue(Digits(n)) == n
  {
    if n >= 10 {
      var s := Digits(n);
      assert s[..|s| - 1] == Digits(n / 10);
      DigitsRoundTrip(n / 10);
    }
  }

  /** Leading zeros do not change the value. */
  lemma {:induction false} LeadingZeros(k: nat, s: string)
    requires AllDigits(s)
    ensures AllDigits(seq(k, _ => '0') + s)
    ensures DigitsValue(seq(k, _ => '0') + s) == DigitsValue(s)
  {
    var z := seq(k, _ => '0') + s;
    if |s| == 0 {
      ZerosValue(k);
      assert z == seq(k, _ => '0');
    } else {
      LeadingZeros(k, s[..|s| - 1]);
      assert z[..|z| - 1] == seq(k, _ => '0') + s[..|s| - 1];
    }
  }

  lemma {:induction false} ZerosValue(k: nat)
    ensures DigitsValue(seq(k, _ => '0')) == 0
  {
    if k > 0 {
      assert seq(k, _ => '0')[..k - 1] == seq(k - 1, _ => '0');
      ZerosValue(k - 1);
    }
  }

  function Abs(n: int): nat
  {
    if n < 0 then -n else n
  }

  /** `s` left-padded with '0' to at least `width` characters; never truncated. */
  function PadLeft(s: string, width: nat): (r: string)
    ensures |r| == Max(width, |s|)
    ensures forall i :: 0 <= i < |r| - |s| ==> r[i] == '0'
  {
    if |s| < width then seq(width - |s|, _ => '0') + s else s
  }

  /**
   * The standard "D<width>" specifier: the magnitude's digits, left-padded
   * with '0' to `width`, after a '-' for a negative number. "D" with one or
   * two digits is a standard format specifier on every runtime, which covers
   * the widths 0 to 99.
   */
  function FormatD(number: int, width: int): string
    requires 0 <= width <= 99
  {
    (if number < 0 then "-" else "") + PadLeft(Digits(Abs(number)), width)
  }

  /**
   * How the runtime renders `number.ToString(format)` for a format string the
   * library does not determine: "D" followed by '-' and digits (a negative
   * width) is a custom format string, and "D" followed by three or more
   * digits is read differently by different .NET versions.
   */
  type CustomFormat = (int, string) -> string

  /** Int32.ToString() of `n`, as the string concatenation "D" + width uses it. */
  function Decimal(n: int): (r: string)
    ensures |r| >= 1 && (r[0] == '-' <==> n < 0)
  {
    (if n < 0 then "-" else "") + Digits(Abs(n))
  }

  /** `number.ToString("D" + width)` for every width the int property can hold. */
  function FormatNumber(number: int, width: int, custom: CustomFormat): string
  {
    if 0 <= width <= 99 then FormatD(number, width) else custom(number, "D" + Decimal(width))
  }

  /** Reads back a string of the shape FormatD produces. */
  function ParseD(s: string): int
  {
    if |s| > 0 && s[0] == '-' && AllDigits(s[1..]) then -(DigitsValue(s[1..]) as int)
    else if AllDigits(s) then DigitsValue(s)
    else 0
  }

  /**
   * The formatted number reads back as the number, is a '-' exactly for a
   * negative number, and has max(width, digit count) digits.
   */
  lemma FormatDMeaning(number: int, width: int)
    requires 0 <= width <= 99
    ensures var r := FormatD(number, width);
      && ParseD(r) == number
      && (number < 0 <==> r[0] == '-')
      && |r| == (if number < 0 then 1 else 0) + Max(width, |Digits(Abs(number))|)
      && forall i :: (if number < 0 then 1 else 0) <= i < |r| ==> IsDigit(r[i])
  {
    var d := Digits(Abs(number));
    PaddedValue(d, width);
    DigitsRoundTrip(Abs(number));
    SignedReadsBack(number < 0, PadLeft(d, width), Abs(number));
  }

  /** Padding with '0' keeps a string of digits and its value. */
  lemma PaddedValue(d: string, width: nat)
    requires AllDigits(d)
    ensures AllDigits(PadLeft(d, width)) && DigitsValue(PadLeft(d, width)) == DigitsValue(d)
  {
    var p := PadLeft(d, width);
    var k := |p| - |d|;
    assert p == seq(k, _ => '0') + d;
    LeadingZeros(k, d);
  }

  /** A digit string of value `v`, after an optional '-', reads back as the signed `v`. */
  lemma SignedReadsBack(negative: bool, p: string, v: nat)
    requires |p| >= 1 && AllDigits(p) && DigitsValue(p) == v
    ensures var r := (if negative then "-" else "") + p;
      && ParseD(r) == (if negative then -(v as int) else v)
      && (negative <==> r[0] == '-')
      && |r| == (if negative then 1 else 0) + |p|
      && forall i :: (if negative then 1 else 0) <= i < |r| ==> IsDigit(r[i])
  {
    if negative {
      assert ("-" + p)[1..] == p;
    } else {
      assert ("" + p) == p;
      assert IsDigit(p[0]);
    }
  }

  /** Different numbers give different strings, whatever the width. */
  lemma FormatDInjective(a: int, b: int, width: int)
    requires 0 <= width <= 99
    requires FormatD(a, width) == FormatD(b, width)
    ensures a == b
  {
    FormatDMeaning(a, width);
    FormatDMeaning(b, width);
  }

  // ----- NewFilesNamingOptions -----------------------------------------------

  /** String.Format("{0}{1}{2}{3}{4}", ...): a null argument formats as "". */
  function FileNameFor(prefix: Option<string>, suffix: Option<string>, width: int, custom: CustomFormat,
                       fileName: string, fileExtension: string, number: int): (r: string)
  {
    var head, mid, tail := fileName + prefix.GetOr(""), FormatNumber(number, width, custom), suffix.GetOr("") + fileExtension;
    assert fileName + prefix.GetOr("") + mid + suffix.GetOr("") + fileExtension == head + mid + tail;
    Slices3(head, mid, tail);
    head + mid + tail
  }

  lemma Slices3<T>(a: seq<T>, b: seq<T>, c: seq<T>)
    ensures var r := a + b + c;
      r[..|a|] == a && r[|a|..|r| - |c|] == b && r[|r| - |c|..] == c
  {
    var r := a + b + c;
    assert r[..|a|] == a;
    assert r[|a|..|r| - |c|] == b;
    assert r[|r| - |c|..] == c;
  }

  /** The number a name of FileNameFor's shape carries, read back from between the head and the tail. */
  function NumberIn(prefix: Option<string>, suffix: Option<string>, fileName: string, fileExtension: string, name: string): int
  {
    var head, tail := fileName + prefix.GetOr(""), suffix.GetOr("") + fileExtension;
    if |head| + |tail| <= |name| then ParseD(name[|head|..|name| - |tail|]) else 0
  }

  /** The counter value can be read back from a generated name: numbering is unambiguous. */
  lemma NumberReadsBack(prefix: Option<string>, suffix: Option<string>, width: int, custom: CustomFormat,
                        fileName: string, fileExtension: string, number: int)
    requires 0 <= width <= 99
    ensures NumberIn(prefix, suffix, fileName, fileExtension,
                     FileNameFor(prefix, suffix, width, custom, fileName, fileExtension, number)) == number
  {
    FormatDMeaning(number, width);
  }

  /**
   * Whatever the width, a name starts with the file name and the prefix and
   * ends with the suffix and the extension.
   */
  lemma NameFrame(prefix: Option<string>, suffix: Option<string>, width: int, custom: CustomFormat,
                  fileName: string, fileExtension: string, number: int)
    ensures var r, head, tail := FileNameFor(prefix, suffix, width, custom, fileName, fileExtension, number),
                                 fileName + prefix.GetOr(""), suffix.GetOr("") + fileExtension;
      && |head| + |tail| <= |r|
      && r[..|head|] == head && r[|r| - |tail|..] == tail
  {
  }

  /** The name ToString(fullFileName, number) builds from the options' prefix, suffix and width. */
  function PageName(prefix: Option<string>, suffix: Option<string>, width: int, custom: CustomFormat,
                    fullFileName: string, number: int): string
  {
    FileNameFor(prefix, suffix, width, custom, GetFileNameWithoutExtension(fullFileName), GetExtension(fullFileName), number)
  }

  /** The counter value can be read back from a page name, between the file's base name and its extension. */
  lemma PageNameReadsBack(prefix: Option<string>, suffix: Option<string>, width: int, custom: CustomFormat,
                          fullFileName: string, number: int)
    requires 0 <= width <= 99
    ensures NumberIn(prefix, suffix, GetFileNameWithoutExtension(fullFileName), GetExtension(fullFileName),
                     PageName(prefix, suffix, width, custom, fullFileName, number)) == number
  {
    NumberReadsBack(prefix, suffix, width, custom, GetFileNameWithoutExtension(fullFileName), GetExtension(fullFileName), number);
  }

  class NewFilesNamingOptions {
    var CounterPrefix: Option<string>
    var CounterSuffix: Option<string>
    var InitialCounterNumber: int32
    var NumberMinimunLength: int32
    var IncrementFactor: int32
    /** Only the constructor and NextName assign it (its setter is private). */
    var CurrentCounterNumber: int32

    constructor ()
      ensures CounterPrefix == None && CounterSuffix == None
      ensures InitialCounterNumber == 1 && CurrentCounterNumber == 1
      ensures NumberMinimunLength == 1 && IncrementFactor == 1
    {
      CounterPrefix, CounterSuffix := None, None;
      InitialCounterNumber := 1;
      CurrentCounterNumber := 1;
      NumberMinimunLength := 1;
      IncrementFactor := 1;
    }

    /**
     * ToString(fileName, fileExtension, number). The runtime's rendering of
     * a format string that is not a standard one is the `custom` parameter.
     */
    function ComposeName(fileName: string, fileExtension: string, number: int32, custom: CustomFormat): (r: string)
      reads this`CounterPrefix, this`CounterSuffix, this`NumberMinimunLength
    {
      FileNameFor(CounterPrefix, CounterSuffix, NumberMinimunLength as int, custom, fileName, fileExtension, number as int)
    }

    /** ToString(fullFileName, number): the directory is dropped and the name split at its last '.'. */
    function NameWithNumber(fullFileName: string, number: int32, custom: CustomFormat): (r: string)
      reads this`CounterPrefix, this`CounterSuffix, this`NumberMinimunLength
    {
      PageName(CounterPrefix, CounterSuffix, NumberMinimunLength as int, custom, fullFileName, number as int)
    }

    /**
     * ToString(): no name, no extension, and the initial counter number rather
     * than the current one. For a width outside 0 to 99 the counter part is
     * the runtime's rendering of the custom format.
     */
    function InitialName(custom: CustomFormat): (r: string)
      reads this
      ensures 0 <= NumberMinimunLength <= 99 ==>
        NumberIn(CounterPrefix, CounterSuffix, "", "", r) == InitialCounterNumber as int
      ensures !(0 <= NumberMinimunLength <= 99) ==>
        r == CounterPrefix.GetOr("") + custom(InitialCounterNumber as int, "D" + Decimal(NumberMinimunLength as int))
             + CounterSuffix.GetOr("")
    {
      var r := ComposeName("", "", InitialCounterNumber, custom);
      if 0 <= NumberMinimunLength <= 99 then
        NumberReadsBack(CounterPrefix, CounterSuffix, NumberMinimunLength as int, custom, "", "", InitialCounterNumber as int);
        r
      else
        r
    }

    /** ToString(fullFileName): names with the current counter, then advances it by IncrementFactor. */
    method NextName(fullFileName: string, custom: CustomFormat) returns (newName: string)
      modifies this`CurrentCounterNumber
      ensures newName == NameWithNumber(fullFileName, old(CurrentCounterNumber), custom)
      ensures CurrentCounterNumber == Wrap32(old(CurrentCounterNumber) as int + IncrementFactor as int)
    {
      var number := CurrentCounterNumber;
      var next := Wrap32(number as int + IncrementFactor as int);
      newName := NameWithNumber(fullFileName, number, custom);
      CurrentCounterNumber := next;
    }
  }

  /** The counter after k calls of NextName from c with step f. */
  function CounterAfter(c: int32, f: int32, k: nat): int32
  {
    Wrap32(c as int + k * f as int)
  }

  /** One more call advances the closed form by one step: the k-th call uses c + k*f (mod 2^32). */
  lemma CounterStep(c: int32, f: int32, k: nat)
    ensures Wrap32(CounterAfter(c, f, k) as int + f as int) == CounterAfter(c, f, k + 1)
  {
    var x := c as int + k * f as int;
    var w := CounterAfter(c, f, k) as int;
    assert w % M32 == x % M32;
    ModAddCongruent(w, x, f as int);
    assert x + f as int == c as int + (k + 1) * f as int;
    ModEqualWrap(w + f as int, x + f as int);
  }

  const M32 := 0x1_0000_0000

  lemma ModAddCongruent(a: int, b: int, d: int)
    requires a % M32 == b % M32
    ensures (a + d) % M32 == (b + d) % M32
  {
    var qa, qb := a / M32, b / M32;
    assert a == qa * M32 + a % M32;
    assert b == qb * M32 + b % M32;
    assert a + d == (b + d) + (qa - qb) * M32;
    ModShift(b + d, qa - qb);
  }

  lemma {:induction false} ModShift(x: int, q: int)
    ensures (x + q * M32) % M32 == x % M32
    decreases if q < 0 then -q else q
  {
    if q > 0 {
      ModShift(x, q - 1);
      assert x + q * M32 == (x + (q - 1) * M32) + M32;
    } else if q < 0 {
      ModShift(x, q + 1);
      assert x + q * M32 == (x + (q + 1) * M32) - M32;
    }
  }

  lemma ModEqualWrap(a: int, b: int)
    requires a % M32 == b % M32
    ensures Wrap32(a) == Wrap32(b)
  {
    ModAddCongruent(a, b, 0x8000_0000);
  }

  /**
   * The naming options FileSystemTiff.SplitToFile(targetDirectory) sets up:
   * counter 1, width 3, prefix "_PAGE", suffix "".
   */
  method DefaultSplitNamingOptions() returns (o: NewFilesNamingOptions)
    ensures fresh(o)
    ensures o.InitialCounterNumber == 1 && o.CurrentCounterNumber == 1 && o.IncrementFactor == 1
    ensures o.NumberMinimunLength == 3 && o.CounterPrefix == Some("_PAGE") && o.CounterSuffix == Some("")
  {
    o := new NewFilesNamingOptions();
    o.InitialCounterNumber := 1;
    o.NumberMinimunLength := 3;
    o.CounterPrefix := Some("_PAGE");
    o.CounterSuffix := Some("");
  }

  /**
   * The first three names FileSystemTiff.SplitToFile gives the pages of
   * "scan.tif", and the counter after them.
   */
  method ScanPageNames(custom: CustomFormat) returns (first: string, second: string, third: string, counter: int32)
    ensures first == "scan_PAGE001.tif" && second == "scan_PAGE002.tif" && third == "scan_PAGE003.tif"
    ensures counter == 4
  {
    var o := DefaultSplitNamingOptions();
    first := ScanNext(o, custom, "scan_PAGE001.tif");
    second := ScanNext(o, custom, "scan_PAGE002.tif");
    third := ScanNext(o, custom, "scan_PAGE003.tif");
    counter := o.CurrentCounterNumber;
  }

  /** One call of ToString("scan.tif") with the split options while the counter is a single digit. */
  method ScanNext(o: NewFilesNamingOptions, custom: CustomFormat, expected: string) returns (name: string)
    requires o.NumberMinimunLength == 3 && o.CounterPrefix == Some("_PAGE") && o.CounterSuffix == Some("")
    requires o.IncrementFactor == 1 && 1 <= o.CurrentCounterNumber <= 8
    requires expected == "scan_PAGE00" + [DigitChar(o.CurrentCounterNumber as nat)] + ".tif"
    modifies o`CurrentCounterNumber
    ensures name == expected && o.CurrentCounterNumber == old(o.CurrentCounterNumber) + 1
  {
    ScanName(o, o.CurrentCounterNumber, custom, expected);
    name := o.NextName("scan.tif", custom);
  }

  lemma ScanName(o: NewFilesNamingOptions, k: int32, custom: CustomFormat, expected: string)
    requires o.NumberMinimunLength == 3 && o.CounterPrefix == Some("_PAGE") && o.CounterSuffix == Some("")
    requires 1 <= k <= 9 && expected == "scan_PAGE00" + [DigitChar(k as nat)] + ".tif"
    ensures o.NameWithNumber("scan.tif", k, custom) == expected
  {
    ScanSplits();
    assert FormatD(k as int, 3) == "00" + [DigitChar(k as nat)];
    assert o.NameWithNumber("scan.tif", k, custom) == FileNameFor(Some("_PAGE"), Some(""), 3, custom, "scan", ".tif", k as int);
  }

  lemma ScanSplits()
    ensures GetFileNameWithoutExtension("scan.tif") == "scan"
    ensures GetExtension("scan.tif") == ".tif"
  {
    SplitPlainName("scan", ".tif");
    assert "scan" + ".tif" == "scan.tif";
  }
}
