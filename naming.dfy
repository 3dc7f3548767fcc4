/** How the downloader names what it writes: the sanitised series slug, the
    chapter directory `<slug>_Chapter_<n>` under the output directory, and the
    page files `page_%03d.<ext>` inside it. */
module Naming {

  // ---------------------------------------------------------------------------
  // Series-slug sanitisation
  // ---------------------------------------------------------------------------

  /** Letters and digits (ASCII stand-in for Python's `str.isalnum`). */
  predicate IsAlnum(c: char) {
    ('a' <= c <= 'z') || ('A' <= c <= 'Z') || ('0' <= c <= '9')
  }

  /** The characters a sanitised slug may keep. */
  predicate IsSlugChar(c: char) {
    IsAlnum(c) || c == '_' || c == '-'
  }

  /** Whitespace as `str.rstrip()` strips it, restricted to ASCII:
      tab, line feed, vertical tab, form feed, carriage return, the four
      information separators 0x1C-0x1F and the space. */
  predicate IsSpace(c: char) {
    (9 <= c as int <= 13) || (28 <= c as int <= 32)
  }

  /** The generator filter of the sanitiser: the slug characters of `s`, in order. */
  function KeepSlugChars(s: string): (r: string)
    ensures forall i :: 0 <= i < |r| ==> IsSlugChar(r[i])
  {
    if s == [] then []
    else (if IsSlugChar(s[0]) then [s[0]] else []) + KeepSlugChars(s[1..])
  }

  /** Python's `str.rstrip()` with no argument: the longest prefix that does
      not end in whitespace and leaves only whitespace behind it. */
  function RStrip(s: string): (r: string)
    ensures r <= s
    ensures r == [] || !IsSpace(r[|r| - 1])
    ensures forall i :: |r| <= i < |s| ==> IsSpace(s[i])
  {
    if s != [] && IsSpace(s[|s| - 1]) then RStrip(s[..|s| - 1]) else s
  }

  /** The series slug as it appears in the chapter directory's name. */
  function SafeSlug(seriesSlug: string): (r: string)
    ensures forall i :: 0 <= i < |r| ==> IsSlugChar(r[i])
  {
    RStrip(KeepSlugChars(seriesSlug))
  }

  /** `a` occurs in `b` as a (not necessarily contiguous) order-preserving subsequence. */
  predicate IsSubsequence(a: string, b: string)
    decreases |b|
  {
    a == [] || (b != [] && if a[0] == b[0] then IsSubsequence(a[1..], b[1..]) else IsSubsequence(a, b[1..]))
  }

  /** No slug character is whitespace, so the trailing strip never removes anything. */
  lemma SafeSlugNeedsNoStrip(seriesSlug: string)
    ensures SafeSlug(seriesSlug) == KeepSlugChars(seriesSlug)
  {
    var kept := KeepSlugChars(seriesSlug);
    if kept != [] {
      assert IsSlugChar(kept[|kept| - 1]);
    }
  }

  /** The sanitised slug is exactly the slug characters of the input, kept in
      their order: a subsequence of the input holding every slug character of
      the input as many times as it occurs there, and nothing else. */
  lemma {:induction false} SafeSlugIsFilter(seriesSlug: string)
    ensures IsSubsequence(SafeSlug(seriesSlug), seriesSlug)
    ensures forall c :: multiset(SafeSlug(seriesSlug))[c] == if IsSlugChar(c) then multiset(seriesSlug)[c] else 0
  {
    SafeSlugNeedsNoStrip(seriesSlug);
    KeepSlugCharsIsFilter(seriesSlug);
  }

  lemma {:induction false} KeepSlugCharsIsFilter(s: string)
    ensures IsSubsequence(KeepSlugChars(s), s)
    ensures forall c :: multiset(KeepSlugChars(s))[c] == if IsSlugChar(c) then multiset(s)[c] else 0
  {
    if s != [] {
      KeepSlugCharsIsFilter(s[1..]);
      var rest := KeepSlugChars(s[1..]);
      assert s == [s[0]] + s[1..];
      if IsSlugChar(s[0]) {
        assert KeepSlugChars(s) == [s[0]] + rest;
        assert KeepSlugChars(s)[1..] == rest;
      } else {
        assert KeepSlugChars(s) == rest;
        SubsequenceOfTail(rest, s);
      }
    }
  }

  lemma {:induction false} SubsequenceOfTail(a: string, b: string)
    requires b != [] && IsSubsequence(a, b[1..])
    ensures IsSubsequence(a, b)
    decreases |a| + |b|, 1
  {
    if a != [] && a[0] == b[0] {
      // b[1..] matches a greedily; dropping a[0] keeps a[1..] inside b[1..]
      SubsequenceDropHead(a, b[1..]);
    }
  }

  lemma {:induction false} SubsequenceDropHead(a: string, b: string)
    requires a != [] && IsSubsequence(a, b)
    ensures IsSubsequence(a[1..], b)
    decreases |a| + |b|, 0
  {
    assert b != [];
    if a[0] == b[0] {
      SubsequenceOfTail(a[1..], b);
    } else {
      SubsequenceDropHead(a, b[1..]);
      SubsequenceOfTail(a[1..], b);
    }
  }

  /** Sanitising is idempotent, and a slug is left unchanged exactly when it
      already consists of slug characters only. */
  lemma {:induction false} SafeSlugFixedPoints(seriesSlug: string)
    ensures SafeSlug(seriesSlug) == seriesSlug <==> forall i :: 0 <= i < |seriesSlug| ==> IsSlugChar(seriesSlug[i])
    ensures SafeSlug(SafeSlug(seriesSlug)) == SafeSlug(seriesSlug)
  {
    SafeSlugNeedsNoStrip(seriesSlug);
    SafeSlugNeedsNoStrip(SafeSlug(seriesSlug));
    KeepAllSlugChars(SafeSlug(seriesSlug));
    if forall i :: 0 <= i < |seriesSlug| ==> IsSlugChar(seriesSlug[i]) {
      KeepAllSlugChars(seriesSlug);
    }
  }

  lemma {:induction false} KeepAllSlugChars(s: string)
    requires forall i :: 0 <= i < |s| ==> IsSlugChar(s[i])
    ensures KeepSlugChars(s) == s
  {
    if s != [] {
      KeepAllSlugChars(s[1..]);
      assert s == [s[0]] + s[1..];
    }
  }

  // ---------------------------------------------------------------------------
  // Decimal numerals and zero padding (`%03d`)
  // ---------------------------------------------------------------------------

  predicate IsDigit(c: char) {
    '0' <= c <= '9'
  }

  predicate AllDigits(s: string) {
    forall i :: 0 <= i < |s| ==> IsDigit(s[i])
  }

  function DigitChar(d: nat): (c: char)
    requires d < 10
    ensures IsDigit(c)
  {
    ('0' as int + d) as char
  }

  function DigitValue(c: char): (d: nat)
    requires IsDigit(c)
    ensures d < 10
  {
    c as int - '0' as int
  }

  /** The decimal numeral of `n` without leading zeros, as `str(n)` writes it. */
  function Decimal(n: nat): (s: string)
    ensures 1 <= |s| && AllDigits(s)
  {
    if n < 10 then [DigitChar(n)] else Decimal(n / 10) + [DigitChar(n % 10)]
  }

  /** The number a string of digits denotes (leading zeros allowed). */
  function ValueOf(s: string): nat
    requires AllDigits(s)
  {
    if s == [] then 0 else ValueOf(s[..|s| - 1]) * 10 + DigitValue(s[|s| - 1])
  }

  function Zeros(k: nat): (z: string)
    ensures |z| == k && AllDigits(z)
  {
    seq(k, i => '0')
  }

  /** `n` formatted with the `0<width>d` format: its numeral, left-padded with
      zeros up to `width` characters. */
  function ZeroPad(n: nat, width: nat): string
  {
    var d := Decimal(n);
    if |d| < width then Zeros(width - |d|) + d else d
  }

  lemma {:induction false} DecimalRoundTrip(n: nat)
    ensures ValueOf(Decimal(n)) == n
  {
    if n >= 10 {
      DecimalRoundTrip(n / 10);
      var d := Decimal(n);
      assert d[..|d| - 1] == Decimal(n / 10);
    }
  }

  /** The numeral of `n` has 1, 2 or 3 digits for the ranges below 10, 100 and
      1000, and at least 4 from 1000 on. */
  lemma {:induction false} DecimalLength(n: nat)
    ensures n < 10 ==> |Decimal(n)| == 1
    ensures 10 <= n < 100 ==> |Decimal(n)| == 2
    ensures 100 <= n < 1000 ==> |Decimal(n)| == 3
    ensures 1000 <= n ==> |Decimal(n)| >= 4
  {
    if n >= 10 {
      DecimalLength(n / 10);
    }
  }

  /** `str(n)` writes no leading zero: only the numeral of 0 starts with '0'. */
  lemma {:induction false} DecimalNoLeadingZero(n: nat)
    ensures Decimal(n)[0] == '0' <==> n == 0
  {
    if n >= 10 {
      DecimalNoLeadingZero(n / 10);
      assert Decimal(n)[0] == Decimal(n / 10)[0];
    }
  }

  lemma {:induction false} LeadingZerosAddNothing(k: nat, s: string)
    requires AllDigits(s)
    ensures ValueOf(Zeros(k) + s) == ValueOf(s)
    decreases |s|, k
  {
    if s == [] {
      assert Zeros(k) + s == Zeros(k);
      if k > 0 {
        assert Zeros(k)[..k - 1] == Zeros(k - 1) + [];
        LeadingZerosAddNothing(k - 1, []);
      }
    } else {
      var init := s[..|s| - 1];
      assert (Zeros(k) + s)[..|Zeros(k) + s| - 1] == Zeros(k) + init;
      LeadingZerosAddNothing(k, init);
    }
  }

  /** `%0<width>d` is a digit string of exactly max(width, digits of n)
      characters, ends with the numeral of `n`, and still denotes `n`. */
  lemma ZeroPadSpec(n: nat, width: nat)
    ensures AllDigits(ZeroPad(n, width))
    ensures |ZeroPad(n, width)| == if |Decimal(n)| < width then width else |Decimal(n)|
    ensures Decimal(n) <= ZeroPad(n, width)[|ZeroPad(n, width)| - |Decimal(n)|..]
    ensures ValueOf(ZeroPad(n, width)) == n
  {
    DecimalRoundTrip(n);
    var d := Decimal(n);
    if |d| < width {
      LeadingZerosAddNothing(width - |d|, d);
      assert (Zeros(width - |d|) + d)[width - |d|..] == d;
    }
  }

  /** Different numbers never receive the same padded numeral. */
  lemma ZeroPadInjective(m: nat, n: nat, width: nat)
    requires ZeroPad(m, width) == ZeroPad(n, width)
    ensures m == n
  {
    ZeroPadSpec(m, width);
    ZeroPadSpec(n, width);
  }

  // ---------------------------------------------------------------------------
  // Directory and file names
  // ---------------------------------------------------------------------------

  /** Page numbers are padded to at least three digits. */
  const PageNumberWidth: nat := 3

  /** The name of the file holding page `page` (counted from 1). */
  function PageFileName(page: nat, extension: string): string
  {
    "page_" + ZeroPad(page, PageNumberWidth) + "." + extension
  }

  /** The name of the chapter directory, `<safe slug>_Chapter_<chapter number>`. */
  function ChapterDirName(seriesSlug: string, chapterNumber: string): string
  {
    SafeSlug(seriesSlug) + "_Chapter_" + chapterNumber
  }

  /** POSIX `os.path.join(dir, name)`: an absolute `name` replaces `dir`; a
      separator is inserted unless `dir` is empty or already ends in one. */
  function JoinPath(dir: string, name: string): string
  {
    if name != [] && name[0] == '/' then name
    else if dir == [] || dir[|dir| - 1] == '/' then dir + name
    else dir + "/" + name
  }

  /** A name that `JoinPath` appends to the directory rather than replacing it with. */
  predicate IsRelative(name: string) {
    name == [] || name[0] != '/'
  }

  /** The chapter directory under the output directory. */
  function ChapterDir(outputDir: string, seriesSlug: string, chapterNumber: string): string
  {
    JoinPath(outputDir, ChapterDirName(seriesSlug, chapterNumber))
  }

  /** The full path of the file holding page `page`. */
  function PagePath(chapterDir: string, page: nat, extension: string): string
  {
    JoinPath(chapterDir, PageFileName(page, extension))
  }

  /** Page file names: three digits for pages 1-999, the plain numeral from
      1000 on, and always the numeral of the page between `page_` and the dot. */
  lemma PageFileNameShape(page: nat, extension: string)
    ensures 1 <= page < 1000 ==> |PageFileName(page, extension)| == 9 + |extension|
    ensures 1000 <= page ==> PageFileName(page, extension) == "page_" + Decimal(page) + "." + extension
    ensures ValueOf(PageFileName(page, extension)[5..|PageFileName(page, extension)| - |extension| - 1]) == page
  {
    DecimalLength(page);
    ZeroPadSpec(page, PageNumberWidth);
    var pad := ZeroPad(page, PageNumberWidth);
    var name := "page_" + pad + "." + extension;
    assert PageFileName(page, extension) == name;
    assert |name| == 6 + |pad| + |extension|;
    assert name[5..|name| - |extension| - 1] == pad;
  }

  /** The number of leading digits of `s`. */
  function LeadingDigitCount(s: string): (k: nat)
    ensures k <= |s|
  {
    if s != [] && IsDigit(s[0]) then 1 + LeadingDigitCount(s[1..]) else 0
  }

  lemma {:induction false} LeadingDigitsOf(digits: string, rest: string)
    requires AllDigits(digits)
    requires rest == [] || !IsDigit(rest[0])
    ensures LeadingDigitCount(digits + rest) == |digits|
  {
    if digits != [] {
      assert (digits + rest)[1..] == digits[1..] + rest;
      LeadingDigitsOf(digits[1..], rest);
    }
  }

  /** After `page_`, a page file name is its padded numeral, a dot and the
      extension, and the numeral is exactly its leading digits. */
  lemma PageFileNameTail(page: nat, extension: string)
    ensures var name := PageFileName(page, extension);
      var pad := ZeroPad(page, PageNumberWidth);
      |name| >= 5 && name[5..] == pad + ("." + extension)
      && LeadingDigitCount(name[5..]) == |pad|
  {
    var pad := ZeroPad(page, PageNumberWidth);
    ZeroPadSpec(page, PageNumberWidth);
    assert PageFileName(page, extension) == "page_" + (pad + ("." + extension));
    LeadingDigitsOf(pad, "." + extension);
  }

  /** Two page files have the same name only if they hold the same page with
      the same extension. */
  lemma PageFileNameInjective(page1: nat, ext1: string, page2: nat, ext2: string)
    requires PageFileName(page1, ext1) == PageFileName(page2, ext2)
    ensures page1 == page2 && ext1 == ext2
  {
    var pad1, pad2 := ZeroPad(page1, PageNumberWidth), ZeroPad(page2, PageNumberWidth);
    PageFileNameTail(page1, ext1);
    PageFileNameTail(page2, ext2);
    var tail := PageFileName(page1, ext1)[5..];
    assert |pad1| == |pad2|;
    assert pad1 == tail[..|pad1|] == pad2;
    ZeroPadInjective(page1, page2, PageNumberWidth);
    assert ext1 == tail[|pad1| + 1..] == ext2;
  }

  /** Joining one directory with two different relative names gives two different paths. */
  lemma JoinPathInjective(dir: string, name1: string, name2: string)
    requires IsRelative(name1) && IsRelative(name2)
    requires JoinPath(dir, name1) == JoinPath(dir, name2)
    ensures name1 == name2
  {
    var prefix := if dir == [] || dir[|dir| - 1] == '/' then dir else dir + "/";
    assert JoinPath(dir, name1) == prefix + name1;
    assert JoinPath(dir, name2) == prefix + name2;
    assert name1 == (prefix + name1)[|prefix|..];
    assert name2 == (prefix + name2)[|prefix|..];
  }

  /** Distinct pages of one chapter are saved under distinct paths. */
  lemma PagePathsDistinct(chapterDir: string, page1: nat, ext1: string, page2: nat, ext2: string)
    requires page1 != page2
    ensures PagePath(chapterDir, page1, ext1) != PagePath(chapterDir, page2, ext2)
  {
    if PagePath(chapterDir, page1, ext1) == PagePath(chapterDir, page2, ext2) {
      JoinPathInjective(chapterDir, PageFileName(page1, ext1), PageFileName(page2, ext2));
      PageFileNameInjective(page1, ext1, page2, ext2);
    }
  }

  /** The chapter directory is a non-empty path that ends with the chapter
      directory name, which contains the sanitised slug and the chapter number. */
  lemma ChapterDirShape(outputDir: string, seriesSlug: string, chapterNumber: string)
    ensures ChapterDir(outputDir, seriesSlug, chapterNumber) != []
    ensures IsRelative(ChapterDirName(seriesSlug, chapterNumber))
    ensures ChapterDir(outputDir, seriesSlug, chapterNumber)[|ChapterDir(outputDir, seriesSlug, chapterNumber)| - |ChapterDirName(seriesSlug, chapterNumber)|..]
            == ChapterDirName(seriesSlug, chapterNumber)
  {
    var slug := SafeSlug(seriesSlug);
    var name := ChapterDirName(seriesSlug, chapterNumber);
    if slug != [] {
      assert name[0] == slug[0];
      assert IsSlugChar(slug[0]);
    } else {
      assert name[0] == '_';
    }
    var prefix := if outputDir == [] || outputDir[|outputDir| - 1] == '/' then outputDir else outputDir + "/";
    assert ChapterDir(outputDir, seriesSlug, chapterNumber) == prefix + name;
  }
}
