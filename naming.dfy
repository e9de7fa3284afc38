/**
 * Text helpers of the renderer: decimal rendering of numbers, left padding,
 * the bulk-export file name, whitespace trimming with a fallback, and the
 * order in which strings compare.
 */
module Naming {

  // ---------------------------------------------------------------------------
  // Decimal digits

  predicate IsDigit(c: char) { '0' <= c <= '9' }

  function DigitChar(d: nat): char
    requires d < 10
  {
    ('0' as int + d) as char
  }

  function DigitValue(c: char): nat
    requires IsDigit(c)
  {
    c as int - '0' as int
  }

  function Pow10(k: nat): nat
  {
    if k == 0 then 1 else 10 * Pow10(k - 1)
  }

  /** `String(n)` for a non-negative integer: its shortest decimal form. */
  function NatToString(n: nat): (r: string)
    ensures 1 <= |r|
    ensures forall k :: 0 <= k < |r| ==> IsDigit(r[k])
    ensures r[0] == '0' ==> n == 0
    decreases n
  {
    if n < 10 then [DigitChar(n)] else NatToString(n / 10) + [DigitChar(n % 10)]
  }

  /** The value of a string of decimal digits, most significant first. */
  function ParseDecimal(s: string): nat
    requires forall k :: 0 <= k < |s| ==> IsDigit(s[k])
  {
    if s == [] then 0 else 10 * ParseDecimal(s[..|s| - 1]) + DigitValue(s[|s| - 1])
  }

  /** Reading the decimal form of `n` back gives `n`. */
  lemma {:induction false} ParseNatToString(n: nat)
    ensures ParseDecimal(NatToString(n)) == n
    decreases n
  {
    var s := NatToString(n);
    if n >= 10 {
      ParseNatToString(n / 10);
      assert s[..|s| - 1] == NatToString(n / 10);
    }
  }

  /** The decimal form of `n` has at most `k` digits exactly when `n < 10^k`. */
  lemma {:induction false} NatToStringLength(n: nat, k: nat)
    requires 1 <= k
    ensures |NatToString(n)| <= k <==> n < Pow10(k)
    decreases n
  {
    if n < 10 {
      Pow10AtLeastTen(k);
    } else if k == 1 {
      assert Pow10(1) == 10;
    } else {
      NatToStringLength(n / 10, k - 1);
      assert n / 10 < Pow10(k - 1) <==> n < 10 * Pow10(k - 1);
    }
  }

  lemma {:induction false} Pow10AtLeastTen(k: nat)
    requires 1 <= k
    ensures 10 <= Pow10(k)
  {
    if k > 1 {
      Pow10AtLeastTen(k - 1);
    }
  }

  /** A larger number never has fewer digits. */
  lemma {:induction false} NatToStringLengthMonotone(n: nat, m: nat)
    requires n <= m
    ensures |NatToString(n)| <= |NatToString(m)|
    decreases m
  {
    if n >= 10 {
      NatToStringLengthMonotone(n / 10, m / 10);
    }
  }

  // ---------------------------------------------------------------------------
  // Left padding and fixed-width numbers

  /** `n` copies of `c`. */
  function Repeat(c: char, n: nat): (r: string)
    ensures |r| == n && forall k :: 0 <= k < n ==> r[k] == c
  {
    seq(n, _ => c)
  }

  /** `s.padStart(w, fill)` with a one-character fill string. */
  function PadStart(s: string, w: nat, fill: char): (r: string)
    ensures |r| == if |s| >= w then |s| else w
    ensures r[|r| - |s|..] == s
    ensures forall k :: 0 <= k < |r| - |s| ==> r[k] == fill
  {
    if |s| >= w then s else Repeat(fill, w - |s|) + s
  }

  /** The last `w` decimal digits of `n`, zeros in front. */
  function FixedWidth(n: nat, w: nat): (r: string)
    ensures |r| == w
    ensures forall k :: 0 <= k < w ==> IsDigit(r[k])
  {
    if w == 0 then [] else FixedWidth(n / 10, w - 1) + [DigitChar(n % 10)]
  }

  lemma {:induction false} FixedWidthOfZero(w: nat)
    ensures FixedWidth(0, w) == Repeat('0', w)
  {
    if w > 0 {
      FixedWidthOfZero(w - 1);
    }
  }

  lemma PadStartSnoc(t: string, d: char, w: nat, fill: char)
    requires 1 <= w
    ensures PadStart(t + [d], w, fill) == PadStart(t, w - 1, fill) + [d]
  {
    if |t| + 1 < w {
      assert Repeat(fill, w - |t| - 1) + (t + [d]) == (Repeat(fill, w - 1 - |t|) + t) + [d];
    }
  }

  /** Zero-padding the decimal form of `n` to a width it fits in gives its fixed-width digits. */
  lemma {:induction false} PadStartIsFixedWidth(n: nat, w: nat)
    requires |NatToString(n)| <= w
    ensures PadStart(NatToString(n), w, '0') == FixedWidth(n, w)
    decreases n
  {
    if n < 10 {
      FixedWidthOfZero(w - 1);
      PadStartSnoc([], DigitChar(n), w, '0');
      assert [] + [DigitChar(n)] == NatToString(n);
      assert FixedWidth(n, w) == FixedWidth(0, w - 1) + [DigitChar(n)];
    } else {
      var t := NatToString(n / 10);
      assert NatToString(n) == t + [DigitChar(n % 10)];
      PadStartIsFixedWidth(n / 10, w - 1);
      PadStartSnoc(t, DigitChar(n % 10), w, '0');
      assert FixedWidth(n, w) == FixedWidth(n / 10, w - 1) + [DigitChar(n % 10)];
    }
  }

  /** A string parses back to the number whose fixed-width digits it holds. */
  lemma {:induction false} ParseFixedWidth(n: nat, w: nat)
    requires n < Pow10(w)
    ensures ParseDecimal(FixedWidth(n, w)) == n
  {
    if w > 0 {
      ParseFixedWidth(n / 10, w - 1);
      assert FixedWidth(n, w)[..w - 1] == FixedWidth(n / 10, w - 1);
    }
  }

  // ---------------------------------------------------------------------------
  // String order: JavaScript's `<` on strings

  /** `s` and `t` agree before position `k` and `s` has the smaller character at `k`. */
  predicate FirstDiffersBelow(s: string, t: string, k: nat)
  {
    k < |s| && k < |t| && s[..k] == t[..k] && s[k] < t[k]
  }

  /** Lexicographic order: first differing character decides, a proper prefix comes first. */
  predicate StringLess(s: string, t: string)
  {
    (exists k: nat | k < |s| :: FirstDiffersBelow(s, t, k)) || (|s| < |t| && s == t[..|s|])
  }

  /** A difference inside equal-length middles survives a common head and tail. */
  lemma {:induction false} FirstDiffersInContext(head: string, a: string, b: string, tail: string, k: nat)
    requires |a| == |b| && FirstDiffersBelow(a, b, k)
    ensures FirstDiffersBelow(head + a + tail, head + b + tail, |head| + k)
    ensures StringLess(head + a + tail, head + b + tail) && head + a + tail != head + b + tail
  {
    var s, t := head + a + tail, head + b + tail;
    assert s[..|head| + k] == head + a[..k];
    assert t[..|head| + k] == head + b[..k];
    assert FirstDiffersBelow(s, t, |head| + k);
    assert s[|head| + k] != t[|head| + k];
  }

  /** Among numbers that fit in `w` digits, fixed-width digit order is numeric order. */
  lemma {:induction false} FixedWidthOrder(n: nat, m: nat, w: nat)
    requires n < m < Pow10(w)
    ensures exists k: nat :: FirstDiffersBelow(FixedWidth(n, w), FixedWidth(m, w), k)
    decreases w
  {
    var a, b := FixedWidth(n, w), FixedWidth(m, w);
    if n / 10 == m / 10 {
      assert a[..w - 1] == FixedWidth(n / 10, w - 1) == b[..w - 1];
      assert FirstDiffersBelow(a, b, w - 1);
    } else {
      FixedWidthOrder(n / 10, m / 10, w - 1);
      var k: nat :| FirstDiffersBelow(FixedWidth(n / 10, w - 1), FixedWidth(m / 10, w - 1), k);
      assert a[..k] == FixedWidth(n / 10, w - 1)[..k];
      assert b[..k] == FixedWidth(m / 10, w - 1)[..k];
      assert FirstDiffersBelow(a, b, k);
    }
  }

  // ---------------------------------------------------------------------------
  // Bulk export file names

  /** Width of the zero-padded step number: the digit count of `total`, but at least five. */
  function PadWidth(total: nat): (w: nat)
    ensures w >= 5 && w >= |NatToString(total)|
    ensures w == 5 || w == |NatToString(total)|
    ensures w == 5 <==> total < 100000
  {
    NatToStringLength(total, 5);
    if |NatToString(total)| > 4 then |NatToString(total)| else 5
  }

  /** The name of the file written for the 0-based `step`: `<prefix>-<step+1 padded>.png`. */
  function FileName(prefix: string, step: nat, w: nat): string
  {
    prefix + "-" + PadStart(NatToString(step + 1), w, '0') + ".png"
  }

  /** A step number that fits the width is written with exactly `w` digits. */
  lemma FileNameFixedWidth(prefix: string, step: nat, w: nat)
    requires |NatToString(step + 1)| <= w
    ensures FileName(prefix, step, w) == prefix + "-" + FixedWidth(step + 1, w) + ".png"
  {
    PadStartIsFixedWidth(step + 1, w);
  }

  /** Every name of a run has the same length and carries its 1-based step number. */
  lemma FileNameShape(prefix: string, step: nat, total: nat)
    requires step < total
    ensures |FileName(prefix, step, PadWidth(total))| == |prefix| + PadWidth(total) + 5
    ensures var name := FileName(prefix, step, PadWidth(total));
      ParseDecimal(name[|prefix| + 1..|prefix| + 1 + PadWidth(total)]) == step + 1
  {
    var w := PadWidth(total);
    NatToStringLengthMonotone(step + 1, total);
    FileNameFixedWidth(prefix, step, w);
    NatToStringLength(step + 1, w);
    ParseFixedWidth(step + 1, w);
    var name := FileName(prefix, step, w);
    assert name[|prefix| + 1..|prefix| + 1 + w] == FixedWidth(step + 1, w);
  }

  /** Within one run, names sort in step order, so no two steps share a name. */
  lemma FileNamesOrdered(prefix: string, i: nat, j: nat, total: nat)
    requires i < j < total
    ensures StringLess(FileName(prefix, i, PadWidth(total)), FileName(prefix, j, PadWidth(total)))
    ensures FileName(prefix, i, PadWidth(total)) != FileName(prefix, j, PadWidth(total))
  {
    var w := PadWidth(total);
    NatToStringLengthMonotone(i + 1, total);
    NatToStringLengthMonotone(j + 1, total);
    FileNameFixedWidth(prefix, i, w);
    FileNameFixedWidth(prefix, j, w);
    NatToStringLength(j + 1, w);
    FixedWidthOrder(i + 1, j + 1, w);
    var a, b := FixedWidth(i + 1, w), FixedWidth(j + 1, w);
    var k: nat :| FirstDiffersBelow(a, b, k);
    FirstDiffersInContext(prefix + "-", a, b, ".png", k);
  }

  // ---------------------------------------------------------------------------
  // String.prototype.trim and the `trim() || fallback` idiom

  /**
   * The characters JavaScript's `trim` removes, as inclusive code-point ranges: tab, line feed,
   * vertical tab, form feed, carriage return, space, no-break space, the other Unicode space
   * separators, the line and paragraph separators and the byte order mark.
   */
  const WhiteSpaceRanges: seq<(int, int)> :=
    [(0x9, 0xD), (0x20, 0x20), (0xA0, 0xA0), (0x1680, 0x1680), (0x2000, 0x200A),
     (0x2028, 0x2029), (0x202F, 0x202F), (0x205F, 0x205F), (0x3000, 0x3000), (0xFEFF, 0xFEFF)]

  /** `x` lies in one of the ranges `rs`. */
  predicate InRanges(x: int, rs: seq<(int, int)>)
  {
    rs != [] && ((rs[0].0 <= x <= rs[0].1) || InRanges(x, rs[1..]))
  }

  predicate IsJsWhiteSpace(c: char)
  {
    InRanges(c as int, WhiteSpaceRanges)
  }

  /** True when every character of `s` is white space (also when `s` is empty). */
  predicate AllWhiteSpace(s: string)
  {
    forall k :: 0 <= k < |s| ==> IsJsWhiteSpace(s[k])
  }

  /** How many white-space characters `s` starts with. */
  function LeadingWhiteSpace(s: string): (n: nat)
    ensures n <= |s|
    ensures forall k :: 0 <= k < n ==> IsJsWhiteSpace(s[k])
    ensures n < |s| ==> !IsJsWhiteSpace(s[n])
  {
    if s != [] && IsJsWhiteSpace(s[0]) then 1 + LeadingWhiteSpace(s[1..]) else 0
  }

  /** How many white-space characters `s` ends with. */
  function TrailingWhiteSpace(s: string): (n: nat)
    ensures n <= |s|
    ensures forall k :: |s| - n <= k < |s| ==> IsJsWhiteSpace(s[k])
    ensures n < |s| ==> !IsJsWhiteSpace(s[|s| - n - 1])
  {
    if s != [] && IsJsWhiteSpace(s[|s| - 1]) then 1 + TrailingWhiteSpace(s[..|s| - 1]) else 0
  }

  /** What follows the kept part of `rest` is white space. */
  lemma TrailingPart(rest: string, r: string)
    requires r == rest[..|rest| - TrailingWhiteSpace(rest)]
    ensures AllWhiteSpace(rest[|r|..])
  {
    var n := TrailingWhiteSpace(rest);
    var t := rest[|rest| - n..];
    assert rest[|r|..] == t;
    forall k | 0 <= k < |t| ensures IsJsWhiteSpace(t[k]) {
      assert t[k] == rest[|rest| - n + k];
    }
  }

  /** The facts about the slice `trim` keeps, for `Trim` to state. */
  lemma TrimmedSlice(s: string, i: nat, rest: string, r: string)
    requires i == LeadingWhiteSpace(s) && rest == s[i..] && r == rest[..|rest| - TrailingWhiteSpace(rest)]
    ensures i + |r| <= |s| && r == s[i..i + |r|]
    ensures AllWhiteSpace(s[..i]) && AllWhiteSpace(s[i + |r|..])
    ensures r == [] ==> AllWhiteSpace(s)
  {
    TrailingPart(rest, r);
    assert s[i + |r|..] == rest[|r|..];
    if i < |s| {
      assert !IsJsWhiteSpace(rest[0]);
    } else {
      assert s[..i] == s;
    }
  }

  /**
   * `s.trim()`: the slice of `s` between its leading and its trailing white space; it is empty
   * exactly when `s` is all white space, and otherwise starts and ends with a visible character.
   */
  function Trim(s: string): (r: string)
    ensures r == [] <==> AllWhiteSpace(s)
    ensures r != [] ==> !IsJsWhiteSpace(r[0]) && !IsJsWhiteSpace(r[|r| - 1])
    ensures var i := LeadingWhiteSpace(s);
      i + |r| <= |s| && r == s[i..i + |r|] && AllWhiteSpace(s[..i]) && AllWhiteSpace(s[i + |r|..])
  {
    var i := LeadingWhiteSpace(s);
    var rest := s[i..];
    var r := rest[..|rest| - TrailingWhiteSpace(rest)];
    TrimmedSlice(s, i, rest, r);
    r
  }

  /** `input.trim() || fallback`: the trimmed input, or the fallback when nothing visible was typed. */
  function TrimOr(input: string, fallback: string): (r: string)
    ensures !AllWhiteSpace(input) ==> r == Trim(input) && r != []
    ensures AllWhiteSpace(input) ==> r == fallback
  {
    var t := Trim(input);
    if t != [] then t else fallback
  }
}
